/**
 * Integer powers and the base-N digit encoding of board cells: the
 * specification of boarddata.hh `pow`, `Geometry::encode` and
 * `Geometry::decode` (and of the same loops in tictactoe.cc).
 *
 * A cell is a number in [0, N^D); its D coordinates ("sides") are its base-N
 * digits, least significant first.
 */
module Digits {

  /** a^b, the value `pow(a, b)` computes. */
  function Pow(a: nat, b: nat): nat
  {
    if b == 0 then 1 else a * Pow(a, b - 1)
  }

  lemma {:induction false} PowPositive(a: nat, b: nat)
    requires a >= 1
    ensures Pow(a, b) >= 1
  {
    if b > 0 {
      PowPositive(a, b - 1);
    }
  }

  lemma {:induction false} PowMonotoneBase(a: nat, c: nat, b: nat)
    requires a <= c
    ensures Pow(a, b) <= Pow(c, b)
  {
    if b > 0 {
      PowMonotoneBase(a, c, b - 1);
      MulMonotone(a, Pow(a, b - 1), c, Pow(c, b - 1));
    }
  }

  lemma MulMonotone(a: nat, b: nat, c: nat, d: nat)
    requires a <= c && b <= d
    ensures a * b <= c * d
  {
    assert a * b <= c * b;
    assert c * b <= c * d;
  }

  /** `pow`: repeated multiplication, one factor per round. */
  method PowLoop(a: nat, b: nat) returns (ans: nat)
    ensures ans == Pow(a, b)
  {
    ans := 1;
    var i := 0;
    while i < b
      invariant 0 <= i <= b
      invariant ans == Pow(a, i)
    {
      ans := ans * a;
      i := i + 1;
    }
  }

  /** True when every digit is a valid side value in [0, n). */
  predicate DigitsBelow(x: seq<nat>, n: nat)
  {
    forall i :: 0 <= i < |x| ==> x[i] < n
  }

  /** The d base-n digits of p, least significant first. */
  function Decode(n: nat, d: nat, p: nat): (r: seq<nat>)
    requires n >= 1
    ensures |r| == d && DigitsBelow(r, n)
  {
    if d == 0 then [] else [p % n] + Decode(n, d - 1, p / n)
  }

  /** The number whose base-n digits, least significant first, are x. */
  function Encode(n: nat, x: seq<nat>): nat
  {
    if x == [] then 0 else x[0] + n * Encode(n, x[1..])
  }

  lemma SnocStep(n: nat, x0: nat, e: nat, v: nat, p: nat, p1: nat)
    requires p1 == n * p
    ensures x0 + n * (e + v * p) == (x0 + n * e) + v * p1
  {
    calc {
      x0 + n * (e + v * p);
      x0 + n * e + n * (v * p);
      { MulAssoc(n, v, p); }
      x0 + n * e + (n * v) * p;
      { MulAssoc(v, n, p); }
      (x0 + n * e) + v * (n * p);
    }
  }

  /** Appending a most significant digit adds digit * n^|x|. */
  lemma {:induction false} EncodeSnoc(n: nat, x: seq<nat>, v: nat)
    ensures Encode(n, x + [v]) == Encode(n, x) + v * Pow(n, |x|)
  {
    if x == [] {
      assert [v][1..] == [];
    } else {
      assert (x + [v])[1..] == x[1..] + [v];
      EncodeSnoc(n, x[1..], v);
      SnocStep(n, x[0], Encode(n, x[1..]), v, Pow(n, |x| - 1), Pow(n, |x|));
    }
  }

  lemma EncodeStep(ans: nat, factor: nat, digit: nat, n: nat, rest: nat)
    ensures ans + factor * (digit + n * rest) == (ans + digit * factor) + (factor * n) * rest
  {
    calc {
      factor * (digit + n * rest);
      factor * digit + factor * (n * rest);
      { MulAssoc(factor, n, rest); }
      digit * factor + (factor * n) * rest;
    }
  }

  lemma MulAssoc(a: int, b: int, c: int)
    ensures a * (b * c) == (a * b) * c
  {
  }

  /** An upper bound of a digit plus n times a bounded value. */
  lemma DigitBound(n: nat, digit: nat, e: nat, bound: nat)
    requires digit < n && e < bound
    ensures digit + n * e < n * bound
  {
    assert e <= bound - 1;
    MulMonotone(n, e, n, bound - 1);
    assert n * (bound - 1) == n * bound - n;
  }

  /** Digit tuples encode below n^|x|. */
  lemma {:induction false} EncodeBound(n: nat, x: seq<nat>)
    requires DigitsBelow(x, n)
    ensures Encode(n, x) < Pow(n, |x|)
  {
    if x != [] {
      assert DigitsBelow(x[1..], n);
      EncodeBound(n, x[1..]);
      DigitBound(n, x[0], Encode(n, x[1..]), Pow(n, |x| - 1));
    }
  }

  lemma DivModUnique(p: int, n: int, q: int, r: int)
    requires n >= 1 && 0 <= r < n && p == q * n + r
    ensures p / n == q && p % n == r
  {
    var k := q - p / n;
    assert k * n == p % n - r by {
      assert p == (p / n) * n + p % n;
      MulSub(q, p / n, n);
    }
    if k >= 1 {
      MulMonotone(1, n, k, n);
      assert false;
    } else if k <= -1 {
      assert false;
    }
  }

  lemma MulSub(a: int, b: int, c: int)
    ensures (a - b) * c == a * c - b * c
  {
  }

  /** Round trip: encoding the decoded digits of a cell gives the cell back. */
  lemma {:induction false} EncodeDecode(n: nat, d: nat, p: nat)
    requires n >= 1 && p < Pow(n, d)
    ensures Encode(n, Decode(n, d, p)) == p
  {
    if d > 0 {
      var q, r := p / n, p % n;
      QuotientBound(p, n, Pow(n, d - 1));
      EncodeDecode(n, d - 1, q);
      var digits := Decode(n, d, p);
      assert digits[0] == r && digits[1..] == Decode(n, d - 1, q);
      assert Encode(n, digits) == r + n * q;
    } else {
      assert p == 0;
    }
  }

  /** Division by n of a value below n * m leaves a quotient below m. */
  lemma QuotientBound(p: nat, n: nat, m: nat)
    requires n >= 1 && p < n * m
    ensures p / n < m && p == n * (p / n) + p % n
  {
    assert p == (p / n) * n + p % n;
    if p / n >= m {
      MulMonotone(m, n, p / n, n);
    }
  }

  /** Round trip: decoding the encoding of a digit tuple gives the tuple back. */
  lemma {:induction false} DecodeEncode(n: nat, x: seq<nat>)
    requires n >= 1 && DigitsBelow(x, n)
    ensures Decode(n, |x|, Encode(n, x)) == x
  {
    if x != [] {
      var e := Encode(n, x[1..]);
      assert DigitsBelow(x[1..], n);
      DecodeEncode(n, x[1..]);
      DivModUnique(Encode(n, x), n, e, x[0]);
      assert Decode(n, |x|, Encode(n, x)) == [x[0]] + Decode(n, |x| - 1, e);
    }
  }

  /** Distinct digit tuples of one length have distinct codes. */
  lemma EncodeInjective(n: nat, x: seq<nat>, y: seq<nat>)
    requires n >= 1 && |x| == |y| && DigitsBelow(x, n) && DigitsBelow(y, n)
    requires Encode(n, x) == Encode(n, y)
    ensures x == y
  {
    DecodeEncode(n, x);
    DecodeEncode(n, y);
  }

  /** Distinct cells have distinct digit tuples. */
  lemma DecodeInjective(n: nat, d: nat, p: nat, q: nat)
    requires n >= 1 && p < Pow(n, d) && q < Pow(n, d)
    requires Decode(n, d, p) == Decode(n, d, q)
    ensures p == q
  {
    EncodeDecode(n, d, p);
    EncodeDecode(n, d, q);
  }

  /**
   * Most-significant-first encoding: `ans = ans * N + digit` over the digits
   * in order (the re-encoding of `Symmetry::generate_rotation`).
   */
  function MsbEncode(n: nat, x: seq<nat>): nat
  {
    if x == [] then 0 else MsbEncode(n, x[..|x| - 1]) * n + x[|x| - 1]
  }

  lemma {:induction false} MsbEncodeBound(n: nat, x: seq<nat>)
    requires DigitsBelow(x, n)
    ensures MsbEncode(n, x) < Pow(n, |x|)
  {
    if x != [] {
      var init := x[..|x| - 1];
      assert DigitsBelow(init, n);
      MsbEncodeBound(n, init);
      DigitBound(n, x[|x| - 1], MsbEncode(n, init), Pow(n, |x| - 1));
    }
  }

  lemma {:induction false} MsbEncodeInjective(n: nat, x: seq<nat>, y: seq<nat>)
    requires n >= 1 && |x| == |y| && DigitsBelow(x, n) && DigitsBelow(y, n)
    requires MsbEncode(n, x) == MsbEncode(n, y)
    ensures x == y
  {
    if x != [] {
      var k := |x| - 1;
      DivModUnique(MsbEncode(n, x), n, MsbEncode(n, x[..k]), x[k]);
      DivModUnique(MsbEncode(n, y), n, MsbEncode(n, y[..k]), y[k]);
      assert DigitsBelow(x[..k], n) && DigitsBelow(y[..k], n);
      MsbEncodeInjective(n, x[..k], y[..k]);
      assert x == x[..k] + [x[k]] && y == y[..k] + [y[k]];
    }
  }

  /** Most-significant-first encoding is the ordinary encoding of the reversed digits. */
  lemma {:induction false} MsbEncodeReversed(n: nat, x: seq<nat>)
    ensures MsbEncode(n, x) == Encode(n, Reverse(x))
  {
    if x != [] {
      var k := |x| - 1;
      MsbEncodeReversed(n, x[..k]);
      assert Reverse(x) == [x[k]] + Reverse(x[..k]);
      assert Reverse(x)[1..] == Reverse(x[..k]);
    }
  }

  function Reverse(x: seq<nat>): (r: seq<nat>)
    ensures |r| == |x|
    ensures forall i :: 0 <= i < |x| ==> r[i] == x[|x| - 1 - i]
  {
    if x == [] then [] else [x[|x| - 1]] + Reverse(x[..|x| - 1])
  }
}
