/**
  Stable sorting under a "may come first" relation.

  Every ordering step of the layout engine is JavaScript's `Array.prototype.sort`
  with a numeric comparator `(a, b) => key(a) - key(b)`.  That sort is stable,
  and for a comparator that is a consistent total preorder the result is the
  unique stable ordering; `SortBy` below is an insertion sort, stable by
  construction (an element is inserted in front of the first element it may
  precede, and elements are inserted in reverse input order).
  The relation `le(a, b)` stands for "comparator(a, b) <= 0".
*/
module Sorting {

  ghost predicate TotalPreorder<T(!new)>(le: (T, T) -> bool) {
    && (forall a, b :: le(a, b) || le(b, a))
    && (forall a, b, c :: le(a, b) && le(b, c) ==> le(a, c))
  }

  ghost predicate SortedBy<T>(le: (T, T) -> bool, s: seq<T>) {
    forall i, j :: 0 <= i < j < |s| ==> le(s[i], s[j])
  }

  /** No two elements of `s` share a key. */
  ghost predicate KeysDistinct<T, K>(key: T -> K, s: seq<T>) {
    forall i, j :: 0 <= i < j < |s| ==> key(s[i]) != key(s[j])
  }

  /** Inserts `x` in front of the first element it may precede. */
  function InsertBy<T>(le: (T, T) -> bool, x: T, s: seq<T>): (r: seq<T>)
    ensures |r| == |s| + 1
    ensures multiset(r) == multiset(s) + multiset{x}
  {
    if |s| == 0 || le(x, s[0]) then [x] + s
    else
      assert s == [s[0]] + s[1..];
      [s[0]] + InsertBy(le, x, s[1..])
  }

  /** The stable sort of `s` under `le`: a permutation of `s`. */
  function SortBy<T>(le: (T, T) -> bool, s: seq<T>): (r: seq<T>)
    ensures |r| == |s|
    ensures multiset(r) == multiset(s)
  {
    if |s| == 0 then []
    else
      assert s == [s[0]] + s[1..];
      InsertBy(le, s[0], SortBy(le, s[1..]))
  }

  lemma {:induction false} InsertBySorted<T(!new)>(le: (T, T) -> bool, x: T, s: seq<T>)
    requires TotalPreorder(le)
    requires SortedBy(le, s)
    ensures SortedBy(le, InsertBy(le, x, s))
  {
    if |s| == 0 || le(x, s[0]) {
      var r := [x] + s;
      forall i, j | 0 <= i < j < |r| ensures le(r[i], r[j]) {
        if i == 0 && j > 1 {
          assert le(s[0], s[j - 1]);
        }
      }
    } else {
      var t := InsertBy(le, x, s[1..]);
      InsertBySorted(le, x, s[1..]);
      assert le(s[0], x);
      forall k | 0 <= k < |t| ensures le(s[0], t[k]) {
        assert t[k] in multiset(t);
        if t[k] != x {
          assert t[k] in multiset(s[1..]);
          var m :| 0 <= m < |s[1..]| && s[1..][m] == t[k];
          assert s[m + 1] == t[k];
        }
      }
    }
  }

  /** The result of `SortBy` is ordered by `le`. */
  lemma {:induction false} SortByIsSorted<T(!new)>(le: (T, T) -> bool, s: seq<T>)
    requires TotalPreorder(le)
    ensures SortedBy(le, SortBy(le, s))
  {
    if |s| > 0 {
      SortByIsSorted(le, s[1..]);
      InsertBySorted(le, s[0], SortBy(le, s[1..]));
    }
  }

  /** An element of `s` occurs at some index of `s`. */
  lemma IndexOfElement<T>(s: seq<T>, x: T) returns (i: nat)
    requires x in multiset(s)
    ensures i < |s| && s[i] == x
  {
    assert x in s;
    i :| 0 <= i < |s| && s[i] == x;
  }

  /** An element that occurs twice in a sequence has multiplicity at least two. */
  lemma {:induction false} TwiceMeansMultiplicityTwo<T>(s: seq<T>, i: nat, j: nat)
    requires i < j < |s| && s[i] == s[j]
    ensures multiset(s)[s[i]] >= 2
  {
    assert s == s[..j] + [s[j]] + s[j + 1..];
    assert s[..j][i] == s[i];
    assert s[i] in multiset(s[..j]);
  }

  /** An element of multiplicity at least two occurs at two indexes. */
  lemma {:induction false} MultiplicityTwoMeansTwice<T>(s: seq<T>, x: T) returns (i: nat, j: nat)
    requires multiset(s)[x] >= 2
    ensures i < j < |s| && s[i] == x && s[j] == x
  {
    assert s == [s[0]] + s[1..];
    if s[0] == x {
      assert multiset(s[1..])[x] >= 1;
      var k := IndexOfElement(s[1..], x);
      i, j := 0, k + 1;
    } else {
      var i', j' := MultiplicityTwoMeansTwice(s[1..], x);
      i, j := i' + 1, j' + 1;
    }
  }

  /** Rearranging a sequence keeps its keys pairwise distinct. */
  lemma PermutationKeepsKeysDistinct<T, K>(key: T -> K, s: seq<T>, r: seq<T>)
    requires multiset(r) == multiset(s)
    requires KeysDistinct(key, s)
    ensures KeysDistinct(key, r)
  {
    forall i, j | 0 <= i < j < |r| ensures key(r[i]) != key(r[j]) {
      if r[i] == r[j] {
        TwiceMeansMultiplicityTwo(r, i, j);
        var a, b := MultiplicityTwoMeansTwice(s, r[i]);
      } else {
        assert r[i] in multiset(r) && r[j] in multiset(r);
        var a := IndexOfElement(s, r[i]);
        var b := IndexOfElement(s, r[j]);
      }
    }
  }
}
