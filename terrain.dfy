/**
 * Line directions ("terrains"), boarddata.hh `fill_terrain` (147-165) and
 * tictactoe.cc `fill_terrain` (31-49).
 *
 * A terrain gives every dimension a direction: constant, rising or falling.
 * The enumeration visits all 3^D assignments, dimension 0 outermost, trying
 * the directions in the order equal, up, down, and keeps an assignment when
 * its first non-equal entry is `up`.
 */
module Terrain {
  import opened Digits
  import opened Sorting

  datatype Direction = Equal | Up | Down

  type Terrain = seq<Direction>

  /** `all_directions`, in the order the enumeration tries them. */
  const AllDirections: seq<Direction> := [Equal, Up, Down]

  /** The leaf test of `fill_terrain`: the first non-equal entry exists and is up. */
  predicate Kept(t: Terrain)
  {
    if t == [] then false
    else if t[0] == Equal then Kept(t[1..])
    else t[0] == Up
  }

  predicate AllEqual(t: Terrain)
  {
    forall k :: 0 <= k < |t| ==> t[k] == Equal
  }

  /** Up and down exchanged: the same line direction walked backwards. */
  function Swap(t: Terrain): (r: Terrain)
    ensures |r| == |t|
  {
    if t == [] then []
    else [match t[0] case Equal => Equal case Up => Down case Down => Up] + Swap(t[1..])
  }

  /** Number of equal entries. */
  function CountEqual(t: Terrain): nat
  {
    if t == [] then 0 else (if t[0] == Equal then 1 else 0) + CountEqual(t[1..])
  }

  /**
   * The terrains `fill_terrain(terrain, |prefix|)` appends, where prefix holds
   * the entries already assigned to dimensions 0 .. |prefix|-1.
   */
  function Enumerate(prefix: Terrain, d: nat): seq<Terrain>
    decreases d - |prefix|, 4
  {
    if |prefix| >= d then (if Kept(prefix) then [prefix] else [])
    else Branches(prefix, d, 0)
  }

  /** The part of the enumeration from direction AllDirections[k] on. */
  function Branches(prefix: Terrain, d: nat, k: nat): seq<Terrain>
    requires |prefix| < d
    decreases d - |prefix|, 3 - k
  {
    if k >= 3 then []
    else Enumerate(prefix + [AllDirections[k]], d) + Branches(prefix, d, k + 1)
  }

  /** The list `construct_unique_terrains` builds. */
  function UniqueTerrains(d: nat): seq<Terrain>
  {
    Enumerate([], d)
  }

  // ----- the keep rule -----

  /** Kept means: some entry is up and every entry before it is equal. */
  lemma {:induction false} KeptMeaning(t: Terrain)
    ensures Kept(t) <==> exists k :: 0 <= k < |t| && t[k] == Up && AllEqual(t[..k])
  {
    if t != [] {
      KeptMeaning(t[1..]);
      if t[0] == Equal {
        if Kept(t) {
          var k :| 0 <= k < |t[1..]| && t[1..][k] == Up && AllEqual(t[1..][..k]);
          assert t[k + 1] == Up && AllEqual(t[..k + 1]);
        }
        if exists k :: 0 <= k < |t| && t[k] == Up && AllEqual(t[..k]) {
          var k :| 0 <= k < |t| && t[k] == Up && AllEqual(t[..k]);
          assert k > 0;
          assert t[1..][k - 1] == Up && AllEqual(t[1..][..k - 1]);
        }
      } else if t[0] == Up {
        assert AllEqual(t[..0]);
      } else {
        forall k | 0 <= k < |t| && t[k] == Up ensures !AllEqual(t[..k]) {
          if k > 0 {
            assert t[..k][0] == t[0];
          }
        }
      }
    }
  }

  /** The all-equal assignment (a single point, not a line) is never kept. */
  lemma {:induction false} AllEqualNotKept(t: Terrain)
    requires AllEqual(t)
    ensures !Kept(t)
  {
    if t != [] {
      assert AllEqual(t[1..]);
      AllEqualNotKept(t[1..]);
    }
  }

  /** A kept terrain is a line: it is not all equal. */
  lemma {:induction false} KeptNotAllEqual(t: Terrain)
    requires Kept(t)
    ensures !AllEqual(t)
  {
    if t[0] == Equal {
      KeptNotAllEqual(t[1..]);
      var k :| 0 <= k < |t[1..]| && t[1..][k] != Equal;
      assert t[k + 1] != Equal;
    }
  }

  /** Of a direction and its reverse exactly one is kept. */
  lemma {:induction false} KeptExactlyOneOfSwap(t: Terrain)
    requires !AllEqual(t)
    ensures Kept(t) != Kept(Swap(t))
  {
    assert t != [];
    if t[0] == Equal {
      assert !AllEqual(t[1..]) by {
        if AllEqual(t[1..]) {
          forall k | 0 <= k < |t| ensures t[k] == Equal {
            if k > 0 { assert t[1..][k - 1] == Equal; }
          }
        }
      }
      KeptExactlyOneOfSwap(t[1..]);
    }
  }

  // ----- what the enumeration yields -----

  lemma {:induction false} EnumerateMembers(prefix: Terrain, d: nat, t: Terrain)
    requires |prefix| <= d
    ensures t in Enumerate(prefix, d) <==> |t| == d && Kept(t) && t[..|prefix|] == prefix
    decreases d - |prefix|, 4
  {
    if |prefix| == d {
      if |t| == d {
        assert t[..|t|] == t;
      }
    } else {
      BranchesMembers(prefix, d, 0, t);
      if |t| == d && t[..|prefix|] == prefix {
        var x := t[|prefix|];
        var j := if x == Equal then 0 else if x == Up then 1 else 2;
        assert t[..|prefix| + 1] == prefix + [AllDirections[j]];
      }
    }
  }

  lemma {:induction false} BranchesMembers(prefix: Terrain, d: nat, k: nat, t: Terrain)
    requires |prefix| < d
    ensures t in Branches(prefix, d, k) <==>
      |t| == d && Kept(t) && exists j :: k <= j < 3 && t[..|prefix| + 1] == prefix + [AllDirections[j]]
    decreases d - |prefix|, 3 - k
  {
    if k < 3 {
      EnumerateMembers(prefix + [AllDirections[k]], d, t);
      BranchesMembers(prefix, d, k + 1, t);
      if |t| == d && t[..|prefix| + 1] == prefix + [AllDirections[k]] {
        assert t[..|prefix|] == prefix;
      }
      if |t| == d && exists j :: k <= j < 3 && t[..|prefix| + 1] == prefix + [AllDirections[j]] {
        var j :| k <= j < 3 && t[..|prefix| + 1] == prefix + [AllDirections[j]];
        assert t[..|prefix|] == t[..|prefix| + 1][..|prefix|];
      }
    }
  }

  /** `unique_terrains` holds exactly the kept assignments of length D. */
  lemma UniqueTerrainsMembers(d: nat, t: Terrain)
    ensures t in UniqueTerrains(d) <==> |t| == d && Kept(t)
  {
    EnumerateMembers([], d, t);
  }

  lemma {:induction false} EnumerateDistinct(prefix: Terrain, d: nat)
    requires |prefix| <= d
    ensures NoDuplicates(Enumerate(prefix, d))
    decreases d - |prefix|, 4
  {
    if |prefix| < d {
      BranchesDistinct(prefix, d, 0);
    }
  }

  lemma {:induction false} BranchesDistinct(prefix: Terrain, d: nat, k: nat)
    requires |prefix| < d
    ensures NoDuplicates(Branches(prefix, d, k))
    decreases d - |prefix|, 3 - k
  {
    if k < 3 {
      var longer := prefix + [AllDirections[k]];
      var a, b := Enumerate(longer, d), Branches(prefix, d, k + 1);
      EnumerateDistinct(longer, d);
      BranchesDistinct(prefix, d, k + 1);
      forall i, j | 0 <= i < |a| && 0 <= j < |b| ensures a[i] != b[j] {
        EnumerateMembers(longer, d, a[i]);
        BranchesMembers(prefix, d, k + 1, b[j]);
        var m :| k + 1 <= m < 3 && b[j][..|prefix| + 1] == prefix + [AllDirections[m]];
        assert a[i][..|longer|][|prefix|] == AllDirections[k];
        assert b[j][..|prefix| + 1][|prefix|] == AllDirections[m];
      }
      NoDuplicatesAppend(a, b);
    }
  }

  /** `unique_terrains` lists no terrain twice. */
  lemma UniqueTerrainsDistinct(d: nat)
    ensures NoDuplicates(UniqueTerrains(d))
  {
    EnumerateDistinct([], d);
  }

  // ----- weights: the number of lines each terrain contributes -----

  /** Σ over ts of n^(number of equal entries). */
  function Weight(n: nat, ts: seq<Terrain>): nat
  {
    if ts == [] then 0 else Pow(n, CountEqual(ts[0])) + Weight(n, ts[1..])
  }

  lemma {:induction false} WeightAppend(n: nat, a: seq<Terrain>, b: seq<Terrain>)
    ensures Weight(n, a + b) == Weight(n, a) + Weight(n, b)
  {
    if a != [] {
      assert (a + b)[0] == a[0];
      assert (a + b)[1..] == a[1..] + b;
      WeightAppend(n, a[1..], b);
      calc {
        Weight(n, a + b);
        Pow(n, CountEqual(a[0])) + Weight(n, a[1..] + b);
        Pow(n, CountEqual(a[0])) + Weight(n, a[1..]) + Weight(n, b);
      }
    } else {
      assert a + b == b;
    }
  }

  lemma {:induction false} CountEqualAppend(t: Terrain, x: Direction)
    ensures CountEqual(t + [x]) == CountEqual(t) + if x == Equal then 1 else 0
  {
    if t != [] {
      assert (t + [x])[1..] == t[1..] + [x];
      CountEqualAppend(t[1..], x);
    }
  }

  lemma {:induction false} AllEqualCount(t: Terrain)
    requires AllEqual(t)
    ensures CountEqual(t) == |t|
  {
    if t != [] {
      assert AllEqual(t[1..]);
      AllEqualCount(t[1..]);
    }
  }

  lemma {:induction false} KeptAppend(t: Terrain, x: Direction)
    ensures Kept(t + [x]) == if AllEqual(t) then x == Up else Kept(t)
  {
    if t != [] {
      assert (t + [x])[1..] == t[1..] + [x];
      KeptAppend(t[1..], x);
      if t[0] == Equal {
        assert AllEqual(t) <==> AllEqual(t[1..]) by {
          if AllEqual(t[1..]) {
            forall k | 0 <= k < |t| ensures t[k] == Equal {
              if k > 0 { assert t[1..][k - 1] == Equal; }
            }
          }
        }
      }
    }
  }

  lemma AllEqualAppend(t: Terrain, x: Direction)
    ensures AllEqual(t + [x]) <==> AllEqual(t) && x == Equal
  {
    if AllEqual(t + [x]) {
      assert (t + [x])[|t|] == x;
      forall k | 0 <= k < |t| ensures t[k] == Equal {
        assert (t + [x])[k] == t[k];
      }
    }
  }

  lemma PowStep(a: nat, m: nat)
    requires m >= 1
    ensures Pow(a, m) == a * Pow(a, m - 1)
  {
  }

  /** One level of the enumeration: equal, then up, then down. */
  lemma EnumerateSplit(n: nat, prefix: Terrain, d: nat)
    requires |prefix| < d
    ensures Weight(n, Enumerate(prefix, d)) ==
      Weight(n, Enumerate(prefix + [Equal], d)) + Weight(n, Enumerate(prefix + [Up], d))
        + Weight(n, Enumerate(prefix + [Down], d))
  {
    var pe, pu, pd := prefix + [Equal], prefix + [Up], prefix + [Down];
    assert AllDirections[0] == Equal && AllDirections[1] == Up && AllDirections[2] == Down;
    assert Branches(prefix, d, 3) == [];
    assert Branches(prefix, d, 2) == Enumerate(pd, d) + [];
    assert Branches(prefix, d, 1) == Enumerate(pu, d) + (Enumerate(pd, d) + []);
    assert Branches(prefix, d, 0) == Enumerate(pe, d) + (Enumerate(pu, d) + (Enumerate(pd, d) + []));
    WeightAppend(n, Enumerate(pe, d), Enumerate(pu, d) + (Enumerate(pd, d) + []));
    WeightAppend(n, Enumerate(pu, d), Enumerate(pd, d) + []);
    WeightAppend(n, Enumerate(pd, d), []);
  }

  /** Arithmetic of the all-equal case: n·a·(b − c) + 2·a·b = a·((n+2)·b − n·c). */
  lemma AllEqualStep(n: nat, a: nat, b: nat, c: nat, a1: int, bb: int, cc: int, w: int, we: int, wu: int, wd: int)
    requires a1 == n * a && bb == (n + 2) * b && cc == n * c
    requires 2 * we == a1 * (b - c) && wu == a * b && wd == 0 && w == we + wu + wd
    ensures 2 * w == a * (bb - cc)
  {
    calc {
      2 * w;
      (n * a) * (b - c) + 2 * (a * b);
      a * (n * b - n * c) + a * (2 * b);
      a * ((n + 2) * b - n * c);
    }
  }

  /** Arithmetic of the kept case: n·a·b + a·b + a·b = a·((n+2)·b). */
  lemma KeptStep(n: nat, a: nat, b: nat, a1: int, bb: int, w: int, we: int, wu: int, wd: int)
    requires a1 == n * a && bb == (n + 2) * b
    requires we == a1 * b && wu == a * b && wd == a * b && w == we + wu + wd
    ensures w == a * bb
  {
    calc {
      w;
      (n * a) * b + a * b + a * b;
      a * (n * b + 2 * b);
      a * ((n + 2) * b);
    }
  }

  /**
   * The weight of the enumeration below a prefix, by the shape of the prefix.
   * Summed from the empty prefix this gives ((n+2)^D - n^D) / 2.
   */
  lemma EnumerateWeight(n: nat, prefix: Terrain, d: nat)
    requires |prefix| <= d
    ensures AllEqual(prefix) ==>
      2 * Weight(n, Enumerate(prefix, d)) ==
        Pow(n, |prefix|) * (Pow(n + 2, d - |prefix|) - Pow(n, d - |prefix|))
    ensures Kept(prefix) ==>
      Weight(n, Enumerate(prefix, d)) == Pow(n, CountEqual(prefix)) * Pow(n + 2, d - |prefix|)
    ensures !AllEqual(prefix) && !Kept(prefix) ==> Weight(n, Enumerate(prefix, d)) == 0
  {
    if AllEqual(prefix) {
      AllEqualNotKept(prefix);
      WeightAllEqual(n, prefix, d);
    } else if Kept(prefix) {
      WeightKept(n, prefix, d);
    } else {
      WeightDownFirst(n, prefix, d);
    }
  }

  lemma {:induction false} WeightAllEqual(n: nat, prefix: Terrain, d: nat)
    requires |prefix| <= d && AllEqual(prefix)
    ensures 2 * Weight(n, Enumerate(prefix, d)) ==
      Pow(n, |prefix|) * (Pow(n + 2, d - |prefix|) - Pow(n, d - |prefix|))
    decreases d - |prefix|
  {
    var m := d - |prefix|;
    if m == 0 {
      AllEqualNotKept(prefix);
    } else {
      var pe, pu, pd := prefix + [Equal], prefix + [Up], prefix + [Down];
      EnumerateSplit(n, prefix, d);
      AllEqualAppend(prefix, Equal);
      WeightAllEqual(n, pe, d);
      AllEqualAppend(prefix, Up);
      KeptAppend(prefix, Up);
      AllEqualCount(prefix);
      CountEqualAppend(prefix, Up);
      WeightKept(n, pu, d);
      AllEqualAppend(prefix, Down);
      KeptAppend(prefix, Down);
      WeightDownFirst(n, pd, d);
      PowStep(n, |prefix| + 1);
      PowStep(n + 2, m);
      PowStep(n, m);
      AllEqualStep(n, Pow(n, |prefix|), Pow(n + 2, m - 1), Pow(n, m - 1),
        Pow(n, |prefix| + 1), Pow(n + 2, m), Pow(n, m), Weight(n, Enumerate(prefix, d)),
        Weight(n, Enumerate(pe, d)), Weight(n, Enumerate(pu, d)), Weight(n, Enumerate(pd, d)));
    }
  }

  lemma {:induction false} WeightKept(n: nat, prefix: Terrain, d: nat)
    requires |prefix| <= d && Kept(prefix)
    ensures Weight(n, Enumerate(prefix, d)) == Pow(n, CountEqual(prefix)) * Pow(n + 2, d - |prefix|)
    decreases d - |prefix|
  {
    var m := d - |prefix|;
    KeptNotAllEqual(prefix);
    if m > 0 {
      var pe, pu, pd := prefix + [Equal], prefix + [Up], prefix + [Down];
      EnumerateSplit(n, prefix, d);
      KeptAppend(prefix, Equal);
      CountEqualAppend(prefix, Equal);
      WeightKept(n, pe, d);
      KeptAppend(prefix, Up);
      CountEqualAppend(prefix, Up);
      WeightKept(n, pu, d);
      KeptAppend(prefix, Down);
      CountEqualAppend(prefix, Down);
      WeightKept(n, pd, d);
      PowStep(n, CountEqual(prefix) + 1);
      PowStep(n + 2, m);
      KeptStep(n, Pow(n, CountEqual(prefix)), Pow(n + 2, m - 1), Pow(n, CountEqual(prefix) + 1),
        Pow(n + 2, m), Weight(n, Enumerate(prefix, d)),
        Weight(n, Enumerate(pe, d)), Weight(n, Enumerate(pu, d)), Weight(n, Enumerate(pd, d)));
    }
  }

  lemma {:induction false} WeightDownFirst(n: nat, prefix: Terrain, d: nat)
    requires |prefix| <= d && !AllEqual(prefix) && !Kept(prefix)
    ensures Weight(n, Enumerate(prefix, d)) == 0
    decreases d - |prefix|
  {
    if |prefix| < d {
      var pe, pu, pd := prefix + [Equal], prefix + [Up], prefix + [Down];
      EnumerateSplit(n, prefix, d);
      KeptAppend(prefix, Equal);
      KeptAppend(prefix, Up);
      KeptAppend(prefix, Down);
      AllEqualAppend(prefix, Equal);
      AllEqualAppend(prefix, Up);
      AllEqualAppend(prefix, Down);
      WeightDownFirst(n, pe, d);
      WeightDownFirst(n, pu, d);
      WeightDownFirst(n, pd, d);
    }
  }

  /** Total weight of the kept terrains: twice it is (n+2)^D − n^D. */
  lemma UniqueTerrainsWeight(n: nat, d: nat)
    ensures 2 * Weight(n, UniqueTerrains(d)) == Pow(n + 2, d) - Pow(n, d)
  {
    EnumerateWeight(n, [], d);
  }
}
