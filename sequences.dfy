/** Ordering and selection over result rows: the ORDER BY and WHERE parts
    of the store's queries, stated once for any row type. */
module Sequences {

  /** `a` may come before `b` in an ascending (or, when `desc`, descending) order. */
  predicate InOrder(a: real, b: real, desc: bool) {
    if desc then a >= b else a <= b
  }

  /** `s` is ordered by `key`, non-strictly: equal keys may come in any order. */
  predicate SortedBy<T>(s: seq<T>, key: T -> real, desc: bool) {
    forall i, j :: 0 <= i < j < |s| ==> InOrder(key(s[i]), key(s[j]), desc)
  }

  /** The head of an ordered sequence comes before each of its members. */
  lemma HeadFirst<T>(s: seq<T>, key: T -> real, desc: bool)
    requires SortedBy(s, key, desc)
    requires s != []
    ensures forall y :: y in s ==> InOrder(key(s[0]), key(y), desc)
  {
    forall y | y in s
      ensures InOrder(key(s[0]), key(y), desc)
    {
      var j :| 0 <= j < |s| && s[j] == y;
      if 0 < j {
        assert InOrder(key(s[0]), key(s[j]), desc);
      }
    }
  }

  /** Putting in front of an ordered sequence something that comes before
      each of its members keeps it ordered. */
  lemma ConsSorted<T>(h: T, s: seq<T>, key: T -> real, desc: bool)
    requires SortedBy(s, key, desc)
    requires forall y :: y in s ==> InOrder(key(h), key(y), desc)
    ensures SortedBy([h] + s, key, desc)
  {
    forall i, j | 0 <= i < j < |[h] + s|
      ensures InOrder(key(([h] + s)[i]), key(([h] + s)[j]), desc)
    {
      assert ([h] + s)[j] == s[j - 1];
      if 0 < i {
        assert ([h] + s)[i] == s[i - 1];
      } else {
        assert s[j - 1] in s;
      }
    }
  }

  /** Every member of `t` with `x` added is `x` or a member of `t`. */
  lemma MembersAfterAdd<T>(r: seq<T>, t: seq<T>, x: T)
    requires multiset(r) == multiset(t) + multiset{x}
    ensures forall y :: y in r ==> y == x || y in t
  {
    forall y | y in r
      ensures y == x || y in t
    {
      assert y in multiset(r);
    }
  }

  /** Inserts `x` into an ordered sequence, keeping it ordered. */
  function InsertBy<T(==)>(x: T, s: seq<T>, key: T -> real, desc: bool): (r: seq<T>)
    requires SortedBy(s, key, desc)
    ensures SortedBy(r, key, desc)
    ensures multiset(r) == multiset(s) + multiset{x}
  {
    if s == [] then [x]
    else if InOrder(key(x), key(s[0]), desc) then
      HeadFirst(s, key, desc);
      ConsSorted(x, s, key, desc);
      [x] + s
    else
      var rest := InsertBy(x, s[1..], key, desc);
      assert s == [s[0]] + s[1..];
      HeadFirst(s, key, desc);
      MembersAfterAdd(rest, s[1..], x);
      ConsSorted(s[0], rest, key, desc);
      [s[0]] + rest
  }

  /** Sorts `s` by `key` (insertion sort): the result is ordered and is a
      permutation of `s`. */
  function SortBy<T(==)>(s: seq<T>, key: T -> real, desc: bool): (r: seq<T>)
    ensures SortedBy(r, key, desc)
    ensures multiset(r) == multiset(s)
    ensures |r| == |s|
  {
    if s == [] then []
    else
      assert s == [s[0]] + s[1..];
      InsertBy(s[0], SortBy(s[1..], key, desc), key, desc)
  }

  /** The elements of `s` that satisfy `p`, in their original order. */
  function Filter<T(==,!new)>(s: seq<T>, p: T -> bool): (r: seq<T>)
    ensures forall x :: multiset(r)[x] == if p(x) then multiset(s)[x] else 0
    ensures forall k :: 0 <= k < |r| ==> p(r[k])
  {
    if s == [] then []
    else
      assert s == [s[0]] + s[1..];
      (if p(s[0]) then [s[0]] else []) + Filter(s[1..], p)
  }

  /** In an ordered sequence, everything in a prefix comes before
      everything left out of it. */
  lemma {:induction false} SortedPrefixFirst<T>(s: seq<T>, key: T -> real, desc: bool, n: nat)
    requires SortedBy(s, key, desc)
    requires n <= |s|
    ensures forall x, y :: x in s[..n] && y in multiset(s) - multiset(s[..n]) ==> InOrder(key(x), key(y), desc)
  {
    assert s == s[..n] + s[n..];
    assert multiset(s) - multiset(s[..n]) == multiset(s[n..]);
    forall x, y | x in s[..n] && y in multiset(s[n..])
      ensures InOrder(key(x), key(y), desc)
    {
      assert y in s[n..];
      var i :| 0 <= i < n && s[..n][i] == x;
      var j :| 0 <= j < |s| - n && s[n..][j] == y;
      assert s[i] == x && s[n + j] == y;
    }
  }

  /** A permutation has the same members. */
  lemma SameMembers<T>(a: seq<T>, b: seq<T>)
    requires multiset(a) == multiset(b)
    ensures forall x :: x in a <==> x in b
  {
    forall x
      ensures x in a <==> x in b
    {
      assert x in a <==> x in multiset(a);
      assert x in b <==> x in multiset(b);
    }
  }

  /** No element occurs twice. */
  predicate Distinct<T(==)>(s: seq<T>) {
    forall i, j :: 0 <= i < j < |s| ==> s[i] != s[j]
  }

  /** A sequence without repeated elements holds each element at most once. */
  lemma {:induction false} DistinctMultiplicity<T>(s: seq<T>)
    requires Distinct(s)
    ensures forall x :: multiset(s)[x] <= 1
  {
    if s != [] {
      assert s == [s[0]] + s[1..];
      DistinctMultiplicity(s[1..]);
      assert s[0] !in s[1..];
    }
  }

  /** An element at two positions is counted at least twice. */
  lemma RepeatMultiplicity<T>(s: seq<T>, i: nat, j: nat)
    requires i < j < |s| && s[i] == s[j]
    ensures multiset(s)[s[i]] >= 2
  {
    assert s == s[..j] + s[j..];
    assert s[i] in s[..j];
    assert s[j] in s[j..];
  }

  /** A permutation of a sequence without repeats has no repeats either. */
  lemma PermutationKeepsDistinct<T>(a: seq<T>, b: seq<T>)
    requires Distinct(a)
    requires multiset(a) == multiset(b)
    ensures Distinct(b)
  {
    DistinctMultiplicity(a);
    forall i, j | 0 <= i < j < |b|
      ensures b[i] != b[j]
    {
      if b[i] == b[j] {
        RepeatMultiplicity(b, i, j);
        assert false;
      }
    }
  }
}
