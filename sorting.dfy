/**
 * Orderings, sorting and ordered search: the model of the standard-library
 * algorithms the core calls (`std::sort`, `std::binary_search`, insertion into
 * a `std::set`). Sorting is insertion sort; for a total order every sorted
 * permutation of a sequence is the same sequence (SortedUnique), so the model
 * agrees with whatever algorithm the library uses.
 */
module Sorting {

  ghost predicate TotalOrder<T(!new)>(le: (T, T) -> bool)
  {
    && (forall a, b :: le(a, b) || le(b, a))
    && (forall a, b :: le(a, b) && le(b, a) ==> a == b)
    && (forall a, b, c :: le(a, b) && le(b, c) ==> le(a, c))
  }

  ghost predicate SortedBy<T>(s: seq<T>, le: (T, T) -> bool)
  {
    forall i, j :: 0 <= i < j < |s| ==> le(s[i], s[j])
  }

  predicate NoDuplicates<T(==)>(s: seq<T>)
  {
    forall i, j :: 0 <= i < j < |s| ==> s[i] != s[j]
  }

  predicate StrictlyIncreasing(s: seq<nat>)
  {
    forall i, j :: 0 <= i < j < |s| ==> s[i] < s[j]
  }

  function Insert<T>(x: T, s: seq<T>, le: (T, T) -> bool): (r: seq<T>)
    ensures |r| == |s| + 1 && multiset(r) == multiset(s) + multiset{x}
  {
    if s == [] then [x]
    else if le(x, s[0]) then [x] + s
    else
      assert s == [s[0]] + s[1..];
      [s[0]] + Insert(x, s[1..], le)
  }

  /** The sorted arrangement of s under le. */
  function Sort<T>(s: seq<T>, le: (T, T) -> bool): (r: seq<T>)
    ensures |r| == |s| && multiset(r) == multiset(s)
  {
    if s == [] then []
    else
      var t := Sort(s[1..], le);
      assert s == [s[0]] + s[1..];
      assert multiset(s) == multiset{s[0]} + multiset(s[1..]);
      Insert(s[0], t, le)
  }

  lemma {:induction false} InsertSorted<T(!new)>(x: T, s: seq<T>, le: (T, T) -> bool)
    requires TotalOrder(le) && SortedBy(s, le)
    ensures SortedBy(Insert(x, s, le), le)
  {
    if s != [] && !le(x, s[0]) {
      InsertSorted(x, s[1..], le);
      var r := Insert(x, s[1..], le);
      forall y | y in multiset(r)
        ensures le(s[0], y)
      {
        assert y in multiset(s[1..]) + multiset{x};
        if y in multiset(s[1..]) {
          var k :| 0 <= k < |s[1..]| && s[1..][k] == y;
          assert s[1 + k] == y;
        }
      }
      forall j | 0 <= j < |r| ensures le(s[0], r[j]) {
        assert r[j] in multiset(r);
      }
    }
  }

  /** Sort returns a sorted permutation of its input. */
  lemma {:induction false} SortIsSorted<T(!new)>(s: seq<T>, le: (T, T) -> bool)
    requires TotalOrder(le)
    ensures SortedBy(Sort(s, le), le)
  {
    if s != [] {
      SortIsSorted(s[1..], le);
      InsertSorted(s[0], Sort(s[1..], le), le);
    }
  }

  /** Under a total order a sorted permutation is unique. */
  lemma {:induction false} SortedUnique<T(!new)>(a: seq<T>, b: seq<T>, le: (T, T) -> bool)
    requires TotalOrder(le) && SortedBy(a, le) && SortedBy(b, le)
    requires multiset(a) == multiset(b)
    ensures a == b
  {
    if a != [] {
      assert |b| == |a| by {
        assert |multiset(a)| == |a| && |multiset(b)| == |b|;
      }
      HeadsEqual(a, b, le);
      MultisetTail(a, b);
      SortedUnique(a[1..], b[1..], le);
      assert a == [a[0]] + a[1..] && b == [b[0]] + b[1..];
    }
  }

  lemma HeadsEqual<T(!new)>(a: seq<T>, b: seq<T>, le: (T, T) -> bool)
    requires TotalOrder(le) && SortedBy(a, le) && SortedBy(b, le)
    requires multiset(a) == multiset(b) && a != [] && b != []
    ensures a[0] == b[0]
  {
    assert a[0] in multiset(b);
    assert b[0] in multiset(a);
    var j :| 0 <= j < |b| && b[j] == a[0];
    var i :| 0 <= i < |a| && a[i] == b[0];
    assert le(a[0], b[0]) by {
      if i != 0 { assert le(a[0], a[i]); }
    }
    assert le(b[0], a[0]) by {
      if j != 0 { assert le(b[0], b[j]); }
    }
  }

  lemma MultisetTail<T>(a: seq<T>, b: seq<T>)
    requires a != [] && b != [] && a[0] == b[0] && multiset(a) == multiset(b)
    ensures multiset(a[1..]) == multiset(b[1..])
  {
    assert a == [a[0]] + a[1..] && b == [b[0]] + b[1..];
    assert multiset(a) == multiset{a[0]} + multiset(a[1..]);
    assert multiset(b) == multiset{b[0]} + multiset(b[1..]);
    assert multiset(a[1..]) == multiset(a) - multiset{a[0]};
    assert multiset(b[1..]) == multiset(b) - multiset{b[0]};
  }

  /** Sorting an already sorted sequence changes nothing. */
  lemma SortOfSorted<T(!new)>(s: seq<T>, le: (T, T) -> bool)
    requires TotalOrder(le) && SortedBy(s, le)
    ensures Sort(s, le) == s
  {
    SortIsSorted(s, le);
    SortedUnique(Sort(s, le), s, le);
  }

  lemma {:induction false} NoDuplicatesCount<T>(s: seq<T>, x: T)
    requires NoDuplicates(s)
    ensures multiset(s)[x] <= 1
  {
    if s != [] {
      assert s == [s[0]] + s[1..];
      assert NoDuplicates(s[1..]);
      NoDuplicatesCount(s[1..], x);
      if x == s[0] {
        assert x !in s[1..];
        assert multiset(s[1..])[x] == 0;
      }
    }
  }

  lemma CountTwo<T>(s: seq<T>, i: nat, j: nat)
    requires i < j < |s| && s[i] == s[j]
    ensures multiset(s)[s[i]] >= 2
  {
    assert s == s[..i] + [s[i]] + s[i + 1..j] + [s[j]] + s[j + 1..];
  }

  /** Permuting a duplicate-free sequence keeps it duplicate-free. */
  lemma NoDuplicatesPermutation<T>(a: seq<T>, b: seq<T>)
    requires NoDuplicates(a) && multiset(a) == multiset(b)
    ensures NoDuplicates(b)
  {
    forall i, j | 0 <= i < j < |b| ensures b[i] != b[j] {
      if b[i] == b[j] {
        CountTwo(b, i, j);
        NoDuplicatesCount(a, b[i]);
        assert false;
      }
    }
  }

  /** Two duplicate-free sequences with no element in common join into a duplicate-free one. */
  lemma NoDuplicatesAppend<T>(a: seq<T>, b: seq<T>)
    requires NoDuplicates(a) && NoDuplicates(b)
    requires forall i, j :: 0 <= i < |a| && 0 <= j < |b| ==> a[i] != b[j]
    ensures NoDuplicates(a + b)
  {
    forall i, j | 0 <= i < j < |a + b| ensures (a + b)[i] != (a + b)[j] {
      if i < |a| <= j {
        assert (a + b)[j] == b[j - |a|];
      }
    }
  }

  // ----- orders used by the core -----

  /** `operator<=` on positions. */
  predicate NatLe(a: nat, b: nat)
  {
    a <= b
  }

  lemma NatLeTotal()
    ensures TotalOrder(NatLe)
  {
  }

  /** A duplicate-free sequence of positions, once sorted, is strictly increasing. */
  lemma SortedNoDuplicatesIncreasing(s: seq<nat>)
    requires SortedBy(s, NatLe) && NoDuplicates(s)
    ensures StrictlyIncreasing(s)
  {
  }

  /** Lexicographic `<=` on position vectors, as `std::vector` compares them. */
  predicate LexLe(a: seq<nat>, b: seq<nat>)
  {
    if a == [] then true
    else if b == [] then false
    else if a[0] != b[0] then a[0] < b[0]
    else LexLe(a[1..], b[1..])
  }

  /** Lexicographic `<`. */
  predicate LexLt(a: seq<nat>, b: seq<nat>)
  {
    !LexLe(b, a)
  }

  lemma {:induction false} LexLeTotalAt(a: seq<nat>, b: seq<nat>)
    ensures LexLe(a, b) || LexLe(b, a)
  {
    if a != [] && b != [] && a[0] == b[0] {
      LexLeTotalAt(a[1..], b[1..]);
    }
  }

  lemma {:induction false} LexLeAntisymmetricAt(a: seq<nat>, b: seq<nat>)
    requires LexLe(a, b) && LexLe(b, a)
    ensures a == b
  {
    if a != [] && b != [] {
      LexLeAntisymmetricAt(a[1..], b[1..]);
      assert a == [a[0]] + a[1..] && b == [b[0]] + b[1..];
    }
  }

  lemma {:induction false} LexLeTransitiveAt(a: seq<nat>, b: seq<nat>, c: seq<nat>)
    requires LexLe(a, b) && LexLe(b, c)
    ensures LexLe(a, c)
  {
    if a != [] && b != [] && c != [] && a[0] == b[0] && b[0] == c[0] {
      LexLeTransitiveAt(a[1..], b[1..], c[1..]);
    }
  }

  lemma LexLeTotal()
    ensures TotalOrder(LexLe)
  {
    forall a, b ensures LexLe(a, b) || LexLe(b, a) {
      LexLeTotalAt(a, b);
    }
    forall a, b | LexLe(a, b) && LexLe(b, a) ensures a == b {
      LexLeAntisymmetricAt(a, b);
    }
    forall a, b, c | LexLe(a, b) && LexLe(b, c) ensures LexLe(a, c) {
      LexLeTransitiveAt(a, b, c);
    }
  }

  /**
   * `std::binary_search` over lexicographically sorted vectors: a lower-bound
   * search, then a test of the element found.
   */
  method BinarySearch(lines: seq<seq<nat>>, x: seq<nat>) returns (found: bool)
    requires SortedBy(lines, LexLe)
    ensures found <==> x in lines
  {
    LexLeTotalAt(x, x);
    var lo, hi := 0, |lines|;
    while lo < hi
      invariant 0 <= lo <= hi <= |lines|
      invariant forall k :: 0 <= k < lo ==> LexLt(lines[k], x)
      invariant forall k :: hi <= k < |lines| ==> LexLe(x, lines[k])
    {
      var mid := (lo + hi) / 2;
      if LexLt(lines[mid], x) {
        forall k | lo <= k < mid ensures LexLt(lines[k], x) {
          if LexLe(x, lines[k]) {
            LexLeTransitiveAt(x, lines[k], lines[mid]);
            assert false;
          }
        }
        lo := mid + 1;
      } else {
        forall k | mid < k < hi ensures LexLe(x, lines[k]) {
          LexLeTransitiveAt(x, lines[mid], lines[k]);
        }
        hi := mid;
      }
    }
    found := lo < |lines| && !LexLt(x, lines[lo]);
    if found {
      LexLeAntisymmetricAt(lines[lo], x);
      assert lines[lo] == x;
    } else {
      forall k | 0 <= k < |lines| ensures lines[k] != x {
        if lo < k {
          assert LexLe(lines[lo], lines[k]);
        }
      }
    }
  }

  /** Sorted and duplicate-free under LexLe: the iteration order of a `std::set`. */
  ghost predicate OrderedSet(s: seq<seq<nat>>)
  {
    SortedBy(s, LexLe) && NoDuplicates(s)
  }

  /** `std::set::insert`: adds x to the ordered set unless it is present. */
  function SetInsert(s: seq<seq<nat>>, x: seq<nat>): (r: seq<seq<nat>>)
    requires OrderedSet(s)
    ensures OrderedSet(r)
    ensures forall y :: y in r <==> y in s || y == x
  {
    LexLeTotal();
    if s == [] then [x]
    else if x == s[0] then s
    else if LexLe(x, s[0]) then
      assert forall k :: 0 <= k < |s| ==> LexLe(x, s[k]) && x != s[k];
      [x] + s
    else
      var r := SetInsert(s[1..], x);
      assert forall k :: 0 <= k < |r| ==> LexLe(s[0], r[k]) && s[0] != r[k] by {
        forall k | 0 <= k < |r| ensures LexLe(s[0], r[k]) && s[0] != r[k] {
          assert r[k] in s[1..] || r[k] == x;
        }
      }
      [s[0]] + r
  }
}
