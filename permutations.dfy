/**
 * The arrangements a `do { … } while (next_permutation(…))` loop visits when
 * it starts from the sorted sequence `iota`: every permutation, in
 * lexicographic order, the sorted one first (boarddata.hh 298-306, 332-340).
 */
module Permutations {
  import opened Sorting

  /** 0, 1, …, k-1: what `iota` writes. */
  function Range(k: nat): (r: seq<nat>)
    ensures |r| == k && forall i :: 0 <= i < k ==> r[i] == i
  {
    seq(k, i => i)
  }

  /** s with its i-th element taken out. */
  function Remove(s: seq<nat>, i: nat): (r: seq<nat>)
    requires i < |s|
    ensures |r| == |s| - 1
  {
    s[..i] + s[i + 1..]
  }

  /** x put in front of every sequence of ps. */
  function Prepend(x: nat, ps: seq<seq<nat>>): (r: seq<seq<nat>>)
    ensures |r| == |ps|
  {
    seq(|ps|, k requires 0 <= k < |ps| => [x] + ps[k])
  }

  /**
   * The permutations of s, those starting with s[0] first, then those
   * starting with s[1], and so on: lexicographic order when s is increasing.
   */
  function Perms(s: seq<nat>): seq<seq<nat>>
    decreases |s|, 1
  {
    if s == [] then [[]] else PermsFrom(s, 0)
  }

  function PermsFrom(s: seq<nat>, i: nat): seq<seq<nat>>
    requires i <= |s|
    decreases |s|, 0, |s| - i
  {
    if i == |s| then [] else Prepend(s[i], Perms(Remove(s, i))) + PermsFrom(s, i + 1)
  }

  lemma {:induction false} PermsNonEmpty(s: seq<nat>)
    ensures |Perms(s)| >= 1
    decreases |s|
  {
    if s != [] {
      PermsNonEmpty(Remove(s, 0));
    }
  }

  /** The loop starts with the sequence it was given. */
  lemma {:induction false} PermsFirst(s: seq<nat>)
    ensures |Perms(s)| >= 1 && Perms(s)[0] == s
    decreases |s|
  {
    if s != [] {
      PermsNonEmpty(Remove(s, 0));
      PermsFirst(Remove(s, 0));
      assert Remove(s, 0) == s[1..];
      assert Prepend(s[0], Perms(Remove(s, 0)))[0] == [s[0]] + s[1..];
    }
  }

  lemma RemoveMultiset(s: seq<nat>, i: nat)
    requires i < |s|
    ensures multiset(Remove(s, i)) == multiset(s) - multiset{s[i]}
  {
    assert s == s[..i] + [s[i]] + s[i + 1..];
  }

  /** Every visited sequence is an arrangement of the start. */
  lemma {:induction false} PermsAreArrangements(s: seq<nat>, p: seq<nat>)
    requires p in Perms(s)
    ensures multiset(p) == multiset(s)
    decreases |s|, 1
  {
    if s != [] {
      PermsFromAreArrangements(s, 0, p);
    }
  }

  lemma {:induction false} PermsFromAreArrangements(s: seq<nat>, i: nat, p: seq<nat>)
    requires i <= |s| && p in PermsFrom(s, i)
    ensures multiset(p) == multiset(s)
    decreases |s|, 0, |s| - i
  {
    if i < |s| {
      var head := Prepend(s[i], Perms(Remove(s, i)));
      if p in head {
        var k :| 0 <= k < |head| && head[k] == p;
        PermsAreArrangements(Remove(s, i), Perms(Remove(s, i))[k]);
        RemoveMultiset(s, i);
        assert p == [s[i]] + Perms(Remove(s, i))[k];
      } else {
        PermsFromAreArrangements(s, i + 1, p);
      }
    }
  }

  lemma IndexOf(s: seq<nat>, x: nat) returns (i: nat)
    requires x in s
    ensures i < |s| && s[i] == x
  {
    i :| 0 <= i < |s| && s[i] == x;
  }

  lemma RemoveNoDuplicates(s: seq<nat>, j: nat)
    requires NoDuplicates(s) && j < |s|
    ensures NoDuplicates(Remove(s, j))
  {
    var r := Remove(s, j);
    forall a, b | 0 <= a < b < |r| ensures r[a] != r[b] {
      var a' := if a < j then a else a + 1;
      var b' := if b < j then b else b + 1;
      assert r[a] == s[a'] && r[b] == s[b'];
    }
  }

  lemma {:induction false} PermsFromComplete(s: seq<nat>, i: nat, j: nat, p: seq<nat>)
    requires NoDuplicates(s) && multiset(p) == multiset(s) && i <= j < |s| && p[0] == s[j]
    ensures p in PermsFrom(s, i)
    decreases |s|, 0, |s| - i
  {
    if i == j {
      RemoveMultiset(s, j);
      var rest := p[1..];
      assert p == [p[0]] + rest;
      assert multiset(rest) == multiset(p) - multiset{p[0]};
      RemoveNoDuplicates(s, j);
      PermsComplete(Remove(s, j), rest);
      var k :| 0 <= k < |Perms(Remove(s, j))| && Perms(Remove(s, j))[k] == rest;
      assert Prepend(s[j], Perms(Remove(s, j)))[k] == p;
    } else {
      PermsFromComplete(s, i + 1, j, p);
    }
  }

  /** Every arrangement of a sequence without repeats is visited. */
  lemma {:induction false} PermsComplete(s: seq<nat>, p: seq<nat>)
    requires NoDuplicates(s) && multiset(p) == multiset(s)
    ensures p in Perms(s)
    decreases |s|, 1
  {
    if s == [] {
      assert |p| == 0;
    } else {
      assert |p| == |s| by {
        assert |multiset(p)| == |multiset(s)|;
      }
      assert p[0] in multiset(s);
      var j := IndexOf(s, p[0]);
      PermsFromComplete(s, 0, j, p);
    }
  }

  /** `iota` has no repeats. */
  lemma RangeNoDuplicates(k: nat)
    ensures NoDuplicates(Range(k))
  {
  }
}
