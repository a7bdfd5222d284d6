/**
 * Sequence vocabulary shared by the page models: order-preserving deletion
 * (subsequence), `Array.prototype.filter`, the order of `Array.from(new Set(xs))`,
 * and the `created_at` descending order that the pages ask the database for.
 */
module Seqs {

  /** `a` is `b` with some elements deleted and the rest kept in order. */
  ghost predicate IsSubsequence<T>(a: seq<T>, b: seq<T>)
    decreases |b|
  {
    if a == [] then true
    else if b == [] then false
    else (a[0] == b[0] && IsSubsequence(a[1..], b[1..])) || IsSubsequence(a, b[1..])
  }

  /** Deleting a prefix of `b` first still leaves a subsequence of `b`. */
  lemma {:induction false} SubsequenceOfSuffix<T>(a: seq<T>, b: seq<T>, m: nat)
    requires m <= |b| && IsSubsequence(a, b[m..])
    ensures IsSubsequence(a, b)
    decreases m
  {
    if m > 0 {
      assert b[m..] == b[m - 1..][1..];
      assert IsSubsequence(a, b[m - 1..]);
      SubsequenceOfSuffix(a, b, m - 1);
    }
  }

  /** Every element of a subsequence occurs in the sequence it was taken from. */
  lemma {:induction false} SubsequenceElements<T>(a: seq<T>, b: seq<T>)
    requires IsSubsequence(a, b)
    ensures forall x :: x in a ==> x in b
    decreases |b|
  {
    if a != [] {
      if a[0] == b[0] && IsSubsequence(a[1..], b[1..]) {
        SubsequenceElements(a[1..], b[1..]);
        assert a == [a[0]] + a[1..];
      } else {
        SubsequenceElements(a, b[1..]);
      }
    }
  }

  /** A prefix of a subsequence is again a subsequence. */
  lemma {:induction false} SubsequencePrefix<T>(a: seq<T>, b: seq<T>, n: nat)
    requires IsSubsequence(a, b) && n <= |a|
    ensures IsSubsequence(a[..n], b)
    decreases |b|
  {
    if n > 0 {
      if a[0] == b[0] && IsSubsequence(a[1..], b[1..]) {
        SubsequencePrefix(a[1..], b[1..], n - 1);
        assert a[..n][1..] == a[1..][..n - 1];
      } else {
        SubsequencePrefix(a, b[1..], n);
      }
    }
  }

  /** `Array.prototype.filter`: the elements satisfying `keep`, in their original order. */
  function Filter<T(!new)>(xs: seq<T>, keep: T -> bool): (r: seq<T>)
    ensures IsSubsequence(r, xs)
    ensures forall x :: x in r ==> keep(x)
    ensures forall x :: multiset(r)[x] == if keep(x) then multiset(xs)[x] else 0
  {
    if xs == [] then []
    else
      var rest := Filter(xs[1..], keep);
      assert xs == [xs[0]] + xs[1..];
      if keep(xs[0]) then
        assert ([xs[0]] + rest)[1..] == rest;
        [xs[0]] + rest
      else
        rest
  }

  /** Filtering keeps nothing when no element is kept. */
  lemma FilterNone<T(!new)>(xs: seq<T>, keep: T -> bool)
    requires forall k :: 0 <= k < |xs| ==> !keep(xs[k])
    ensures Filter(xs, keep) == []
  {
    var r := Filter(xs, keep);
    forall x
      ensures multiset(r)[x] == 0
    {
      if keep(x) {
        assert x !in xs;
      }
    }
    assert multiset(r) == multiset{};
  }

  /** Filtering keeps exactly the one element that passes when only one does. */
  lemma {:induction false} FilterSingle<T(!new)>(xs: seq<T>, keep: T -> bool, k: nat)
    requires k < |xs| && keep(xs[k])
    requires forall j :: 0 <= j < |xs| && keep(xs[j]) ==> j == k
    ensures Filter(xs, keep) == [xs[k]]
  {
    var tail := xs[1..];
    if k == 0 {
      forall j | 0 <= j < |tail|
        ensures !keep(tail[j])
      {
        assert tail[j] == xs[j + 1];
      }
      FilterNone(tail, keep);
    } else {
      forall j | 0 <= j < |tail| && keep(tail[j])
        ensures j == k - 1
      {
        assert tail[j] == xs[j + 1];
      }
      FilterSingle(tail, keep, k - 1);
    }
  }

  /** The position of the first occurrence of `x` in `xs` (`Array.prototype.indexOf`). */
  function FirstIndex<T(==)>(xs: seq<T>, x: T): (r: nat)
    requires x in xs
    ensures r < |xs| && xs[r] == x
    ensures forall k :: 0 <= k < r ==> xs[k] != x
  {
    if xs[0] == x then 0 else 1 + FirstIndex(xs[1..], x)
  }

  /**
   * `Array.from(new Set(xs))`: a JavaScript Set keeps its elements in the order
   * in which they were first added, so the result lists each distinct element
   * once, at its first occurrence.
   */
  function Distinct<T(==,!new)>(xs: seq<T>): (r: seq<T>)
    ensures forall x :: x in r <==> x in xs
    ensures forall i, j :: 0 <= i < j < |r| ==> r[i] != r[j]
  {
    if xs == [] then []
    else
      var seen := Distinct(xs[..|xs| - 1]);
      var x := xs[|xs| - 1];
      assert xs == xs[..|xs| - 1] + [x];
      if x in seen then seen else seen + [x]
  }

  /** Adding an element at the end does not move the first occurrence of an existing one. */
  lemma FirstIndexAppend<T>(xs: seq<T>, x: T, y: T)
    requires y in xs
    ensures FirstIndex(xs + [x], y) == FirstIndex(xs, y)
  {
    var i, j := FirstIndex(xs + [x], y), FirstIndex(xs, y);
    assert (xs + [x])[j] == y;
    assert xs[i] == y;
  }

  /** The elements of `Distinct(xs)` appear in the order of their first occurrence in `xs`. */
  lemma {:induction false} DistinctFirstOccurrenceOrder<T(!new)>(xs: seq<T>)
    ensures forall i, j :: 0 <= i < j < |Distinct(xs)| ==>
      FirstIndex(xs, Distinct(xs)[i]) < FirstIndex(xs, Distinct(xs)[j])
  {
    if xs != [] {
      var front, x := xs[..|xs| - 1], xs[|xs| - 1];
      assert xs == front + [x];
      var seen := Distinct(front);
      DistinctFirstOccurrenceOrder(front);
      forall y | y in seen
        ensures FirstIndex(xs, y) == FirstIndex(front, y) < |front|
      {
        FirstIndexAppend(front, x, y);
      }
      if x !in seen {
        assert x !in front;
        assert FirstIndex(xs, x) == |front|;
        assert Distinct(xs) == seen + [x];
        forall i, j | 0 <= i < j < |Distinct(xs)|
          ensures FirstIndex(xs, Distinct(xs)[i]) < FirstIndex(xs, Distinct(xs)[j])
        {
          assert Distinct(xs)[i] == seen[i];
          if j < |seen| {
            assert Distinct(xs)[j] == seen[j];
          }
        }
      }
    }
  }

  /** A sequence that repeats a single value has that value as its only distinct element. */
  lemma {:induction false} DistinctOfConstant<T(!new)>(xs: seq<T>, c: T)
    requires forall k :: 0 <= k < |xs| ==> xs[k] == c
    ensures Distinct(xs) == [] || Distinct(xs) == [c]
  {
    if xs != [] {
      var front := xs[..|xs| - 1];
      assert forall k :: 0 <= k < |front| ==> front[k] == xs[k];
      DistinctOfConstant(front, c);
    }
  }

  /** `xs` is ordered by `key`, largest first (`.order(..., { ascending: false })`). */
  ghost predicate Descending<T>(xs: seq<T>, key: T -> int)
  {
    forall i, j :: 0 <= i < j < |xs| ==> key(xs[i]) >= key(xs[j])
  }

  /** In a descending sequence, the head's key is at least that of every later element. */
  lemma DescendingHead<T>(xs: seq<T>, key: T -> int, y: T)
    requires xs != [] && Descending(xs, key) && y in multiset(xs[1..])
    ensures key(xs[0]) >= key(y)
  {
    var k :| 0 <= k < |xs[1..]| && xs[1..][k] == y;
    assert xs[k + 1] == y;
  }

  /** Inserts `x` into a descending sequence before the first element whose key is not larger. */
  function InsertByKey<T>(x: T, xs: seq<T>, key: T -> int): (r: seq<T>)
    requires Descending(xs, key)
    ensures Descending(r, key)
    ensures multiset(r) == multiset(xs) + multiset{x}
  {
    if xs == [] || key(x) >= key(xs[0]) then
      ConsDescending(x, xs, key);
      [x] + xs
    else
      var rest := InsertByKey(x, xs[1..], key);
      assert xs == [xs[0]] + xs[1..];
      forall j | 0 <= j < |rest|
        ensures key(xs[0]) >= key(rest[j])
      {
        assert rest[j] in multiset(rest);
        if rest[j] != x {
          DescendingHead(xs, key, rest[j]);
        }
      }
      ConsDescending(xs[0], rest, key);
      [xs[0]] + rest
  }

  /** An element whose key is at least every key of a descending sequence can go in front of it. */
  lemma ConsDescending<T>(h: T, xs: seq<T>, key: T -> int)
    requires Descending(xs, key)
    requires xs != [] ==> key(h) >= key(xs[0])
    ensures Descending([h] + xs, key)
  {
    var r := [h] + xs;
    forall i, j | 0 <= i < j < |r|
      ensures key(r[i]) >= key(r[j])
    {
      assert r[j] == xs[j - 1];
      if i > 0 {
        assert r[i] == xs[i - 1];
      }
    }
  }

  /**
   * The rows ordered by `key`, largest first: the order the database returns
   * for `.order('created_at', { ascending: false })`. The result holds exactly
   * the input rows.
   */
  function SortDescending<T>(xs: seq<T>, key: T -> int): (r: seq<T>)
    ensures Descending(r, key)
    ensures multiset(r) == multiset(xs)
  {
    if xs == [] then []
    else
      assert xs == [xs[0]] + xs[1..];
      InsertByKey(xs[0], SortDescending(xs[1..], key), key)
  }
}
