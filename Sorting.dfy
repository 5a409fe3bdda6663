/**
 * Sorting by a key, as `List.sort(Comparator.comparing(key))` does: in place,
 * ascending in the key's `String.compareTo` order, and stable (elements with
 * equal keys keep their order). The menu builder sorts properties with their
 * label as the key.
 *
 * `SortBy` is the specification: each next element is inserted behind every
 * element whose key is not larger. The lemmas prove it sorted, a permutation of
 * its input and stable; `SortInPlace` is the in-place algorithm, proved to
 * leave exactly `SortBy` of the old contents in the array.
 */
module Sorting {
  import opened Labels

  /** Inserts `x` into `s` behind the last element whose key is not larger than `x`'s. */
  function Insert<T>(s: seq<T>, x: T, key: T -> string): seq<T>
  {
    if s == [] || !LexLess(key(x), key(s[|s| - 1])) then s + [x]
    else Insert(s[..|s| - 1], x, key) + [s[|s| - 1]]
  }

  function SortBy<T>(s: seq<T>, key: T -> string): seq<T>
  {
    if s == [] then [] else Insert(SortBy(s[..|s| - 1], key), s[|s| - 1], key)
  }

  ghost predicate SortedBy<T>(s: seq<T>, key: T -> string)
  {
    forall i, j :: 0 <= i < j < |s| ==> LexLe(key(s[i]), key(s[j]))
  }

  /** The elements of `s` whose key is `k`, in the order of `s`. */
  function WithKey<T>(s: seq<T>, key: T -> string, k: string): seq<T>
  {
    if s == [] then []
    else WithKey(s[..|s| - 1], key, k) + (if key(s[|s| - 1]) == k then [s[|s| - 1]] else [])
  }

  lemma {:induction false} InsertPermutes<T>(s: seq<T>, x: T, key: T -> string)
    ensures multiset(Insert(s, x, key)) == multiset(s) + multiset{x}
  {
    if s != [] && LexLess(key(x), key(s[|s| - 1])) {
      var init, last := s[..|s| - 1], s[|s| - 1];
      InsertPermutes(init, x, key);
      assert s == init + [last];
    }
  }

  lemma {:induction false} InsertSorted<T>(s: seq<T>, x: T, key: T -> string)
    requires SortedBy(s, key)
    ensures SortedBy(Insert(s, x, key), key)
  {
    if s == [] {
    } else {
      var init, last := s[..|s| - 1], s[|s| - 1];
      var kx, kl := key(x), key(last);
      if !LexLess(kx, kl) {
        forall i | 0 <= i < |s|
          ensures LexLe(key(s[i]), kx)
        {
          if i < |s| - 1 {
            LexLeTransitive(key(s[i]), kl, kx);
          }
        }
      } else {
        InsertSorted(init, x, key);
        InsertPermutes(init, x, key);
        var r := Insert(init, x, key);
        forall m | 0 <= m < |r|
          ensures LexLe(key(r[m]), kl)
        {
          assert r[m] in multiset(r);
          if r[m] == x {
            LexLessAsymmetric(kx, kl);
          } else {
            assert r[m] in init;
          }
        }
      }
    }
  }

  lemma {:induction false} InsertWithKey<T>(s: seq<T>, x: T, key: T -> string, k: string)
    ensures WithKey(Insert(s, x, key), key, k)
         == WithKey(s, key, k) + (if key(x) == k then [x] else [])
  {
    if s == [] || !LexLess(key(x), key(s[|s| - 1])) {
      assert (s + [x])[..|s|] == s;
    } else {
      var init, last := s[..|s| - 1], s[|s| - 1];
      var r := Insert(init, x, key);
      InsertWithKey(init, x, key, k);
      assert (r + [last])[..|r|] == r;
      if key(x) == k {
        LexLessIrreflexive(k);
        assert key(last) != k;
      }
    }
  }

  /** The sort only reorders: it keeps every element, as often as it occurs. */
  lemma {:induction false} SortPermutes<T>(s: seq<T>, key: T -> string)
    ensures multiset(SortBy(s, key)) == multiset(s)
  {
    if s != [] {
      var init, last := s[..|s| - 1], s[|s| - 1];
      SortPermutes(init, key);
      InsertPermutes(SortBy(init, key), last, key);
      assert s == init + [last];
    }
  }

  /** The sort's result is in ascending key order. */
  lemma {:induction false} SortSorted<T>(s: seq<T>, key: T -> string)
    ensures SortedBy(SortBy(s, key), key)
  {
    if s != [] {
      SortSorted(s[..|s| - 1], key);
      InsertSorted(SortBy(s[..|s| - 1], key), s[|s| - 1], key);
    }
  }

  /** The sort is stable: the elements sharing any one key keep their relative order. */
  lemma {:induction false} SortStable<T>(s: seq<T>, key: T -> string, k: string)
    ensures WithKey(SortBy(s, key), key, k) == WithKey(s, key, k)
  {
    if s != [] {
      SortStable(s[..|s| - 1], key, k);
      InsertWithKey(SortBy(s[..|s| - 1], key), s[|s| - 1], key, k);
    }
  }

  /** A list already in key order is left as it is. */
  lemma {:induction false} SortKeepsSorted<T>(s: seq<T>, key: T -> string)
    requires SortedBy(s, key)
    ensures SortBy(s, key) == s
  {
    if s != [] {
      var init, last := s[..|s| - 1], s[|s| - 1];
      assert SortedBy(init, key);
      SortKeepsSorted(init, key);
      if |init| > 0 {
        assert LexLe(key(init[|init| - 1]), key(last));
      }
      assert init + [last] == s;
    }
  }

  /** Sorting a sorted list again changes nothing. */
  lemma SortIdempotent<T>(s: seq<T>, key: T -> string)
    ensures SortBy(SortBy(s, key), key) == SortBy(s, key)
  {
    SortSorted(s, key);
    SortKeepsSorted(SortBy(s, key), key);
  }

  /**
   * Where `Insert` puts `x`: behind position `j - 1`, when every element from `j`
   * on has a larger key and the one at `j - 1` (if any) does not.
   */
  lemma {:induction false} InsertPlace<T>(s: seq<T>, j: nat, x: T, key: T -> string)
    requires j <= |s|
    requires forall m :: j <= m < |s| ==> LexLess(key(x), key(s[m]))
    requires j == 0 || !LexLess(key(x), key(s[j - 1]))
    ensures Insert(s, x, key) == s[..j] + [x] + s[j..]
    decreases |s|
  {
    if j == |s| {
      assert s[..j] == s && s[j..] == [];
    } else {
      var init := s[..|s| - 1];
      assert forall m :: j <= m < |init| ==> init[m] == s[m];
      InsertPlace(init, j, x, key);
      assert s[..j] == init[..j];
      assert s[j..] == init[j..] + [s[|s| - 1]];
    }
  }

  /** The array contents once the shifting loop has put `x` at `j`. */
  lemma Spliced<T>(after: seq<T>, sorted: seq<T>, x: T, i: nat, j: nat)
    requires j <= i == |sorted| < |after|
    requires forall m :: 0 <= m < j ==> after[m] == sorted[m]
    requires after[j] == x
    requires forall m :: j < m <= i ==> after[m] == sorted[m - 1]
    ensures after[..i + 1] == sorted[..j] + [x] + sorted[j..]
  {
  }

  /** Sorts `a` in place by `key`: the array ends up holding `SortBy` of what it held. */
  method SortInPlace<T>(a: array<T>, key: T -> string)
    modifies a
    ensures a[..] == SortBy(old(a[..]), key)
  {
    ghost var input := a[..];
    var i := 0;
    while i < a.Length
      invariant 0 <= i <= a.Length
      invariant a[..i] == SortBy(input[..i], key)
      invariant a[i..] == input[i..]
    {
      assert a[i] == input[i] && a[i + 1..] == input[i + 1..] by {
        assert a[i..][0] == a[i] && a[i..][1..] == a[i + 1..];
        assert input[i..][0] == input[i] && input[i..][1..] == input[i + 1..];
      }
      InsertAt(a, i, key);
      assert input[..i + 1][..i] == input[..i];
      i := i + 1;
    }
    assert input[..a.Length] == input;
  }

  /** Moves `a[i]` into the sorted prefix `a[..i]`, shifting the elements with larger keys one place right. */
  method InsertAt<T>(a: array<T>, i: nat, key: T -> string)
    requires i < a.Length
    modifies a
    ensures a[..i + 1] == Insert(old(a[..i]), old(a[i]), key)
    ensures a[i + 1..] == old(a[i + 1..])
  {
    var x := a[i];
    ghost var sorted := a[..i];
    var j := i;
    while j > 0 && LexLess(key(x), key(a[j - 1]))
      invariant 0 <= j <= i
      invariant forall m :: 0 <= m < j ==> a[m] == sorted[m]
      invariant forall m :: j < m <= i ==> a[m] == sorted[m - 1]
      invariant forall m :: i < m < a.Length ==> a[m] == old(a[m])
      invariant forall m :: j <= m < i ==> LexLess(key(x), key(sorted[m]))
    {
      a[j] := a[j - 1];
      j := j - 1;
    }
    a[j] := x;
    InsertPlace(sorted, j, x, key);
    Spliced(a[..], sorted, x, i, j);
  }
}
