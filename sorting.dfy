/**
 * Sorting by an integer key. The C++ code calls `std::sort` with a key
 * comparison and no tie-break; the Python code calls the stable `sorted`.
 * Insertion sort is one admissible implementation of both: it returns a
 * permutation of the input ordered non-decreasingly by the key, and it keeps
 * equal keys in input order.
 */
module Sorting {

  /** `s` is ordered non-decreasingly by `key`. */
  predicate SortedBy<T>(s: seq<T>, key: T -> int)
  {
    forall i, j :: 0 <= i < j < |s| ==> key(s[i]) <= key(s[j])
  }

  /** Inserts `x` in front of the first element whose key is not smaller. */
  function Insert<T>(x: T, s: seq<T>, key: T -> int): (r: seq<T>)
    requires SortedBy(s, key)
    ensures SortedBy(r, key)
    ensures multiset(r) == multiset(s) + multiset{x}
    ensures |r| == |s| + 1
    ensures forall i :: 0 <= i < |r| ==> r[i] == x || r[i] in s
  {
    if s == [] then [x]
    else if key(x) <= key(s[0]) then [x] + s
    else
      var rest := Insert(x, s[1..], key);
      InsertBehind(x, s, rest, key);
      [s[0]] + rest
  }

  /** Insert's recursive case: the head stays in front of the tail with `x` inserted. */
  lemma InsertBehind<T>(x: T, s: seq<T>, rest: seq<T>, key: T -> int)
    requires s != [] && SortedBy(s, key) && key(s[0]) < key(x)
    requires SortedBy(rest, key) && multiset(rest) == multiset(s[1..]) + multiset{x}
    requires forall i :: 0 <= i < |rest| ==> rest[i] == x || rest[i] in s[1..]
    ensures SortedBy([s[0]] + rest, key)
    ensures multiset([s[0]] + rest) == multiset(s) + multiset{x}
    ensures forall i :: 0 <= i < |rest| + 1 ==> ([s[0]] + rest)[i] == x || ([s[0]] + rest)[i] in s
  {
    assert s == [s[0]] + s[1..];
    HeadLeast(s, key);
    SortedCons(s[0], rest, key);
    forall i | 0 <= i < |rest| + 1
      ensures ([s[0]] + rest)[i] == x || ([s[0]] + rest)[i] in s
    {
      if i > 0 {
        assert ([s[0]] + rest)[i] == rest[i - 1];
      }
    }
  }

  /** In a sorted sequence no later element has a smaller key than the first. */
  lemma HeadLeast<T>(s: seq<T>, key: T -> int)
    requires s != [] && SortedBy(s, key)
    ensures forall y :: y in s[1..] ==> key(s[0]) <= key(y)
  {
    forall y | y in s[1..]
      ensures key(s[0]) <= key(y)
    {
      var j :| 0 <= j < |s[1..]| && s[1..][j] == y;
      assert s[j + 1] == y;
    }
  }

  /** An element whose key is not larger than any key of a sorted sequence can go in front of it. */
  lemma SortedCons<T>(a: T, s: seq<T>, key: T -> int)
    requires SortedBy(s, key) && forall i :: 0 <= i < |s| ==> key(a) <= key(s[i])
    ensures SortedBy([a] + s, key)
  {
    forall i, j | 0 <= i < j < |s| + 1
      ensures key(([a] + s)[i]) <= key(([a] + s)[j])
    {
      if i > 0 {
        assert ([a] + s)[i] == s[i - 1];
      }
      assert ([a] + s)[j] == s[j - 1];
    }
  }

  /** Sorts `s` by `key`; the result is a permutation of `s`. */
  function InsertionSort<T>(s: seq<T>, key: T -> int): (r: seq<T>)
    ensures SortedBy(r, key)
    ensures multiset(r) == multiset(s)
    ensures |r| == |s|
  {
    if s == [] then []
    else
      assert s == [s[0]] + s[1..];
      Insert(s[0], InsertionSort(s[1..], key), key)
  }
}
