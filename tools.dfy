/**
 * The helpers of TP3/ind/tools.hpp used by the solvers: `random_element`,
 * whose generator is a nondeterministic choice here, and `combinations`,
 * which lists the k-element subsets of a set as increasing vectors. The
 * shuffle of the set's elements is the unspecified order in which
 * `Enumerate` lists them.
 */
module Tools {
  import opened Collections

  /** `random_element`: some element of a non-empty vector. */
  method RandomElement<T>(v: seq<T>) returns (x: T)
    requires |v| > 0
    ensures x in v
  {
    var i :| 0 <= i < |v|;
    x := v[i];
  }

  /** `std::shuffle`: the same elements, in an order the model leaves open. */
  method Shuffle<T>(s: seq<T>) returns (r: seq<T>)
    ensures multiset(r) == multiset(s)
  {
    r := [];
    var rest := s;
    while rest != []
      invariant multiset(r) + multiset(rest) == multiset(s)
      decreases |rest|
    {
      var i :| 0 <= i < |rest|;
      assert rest == rest[..i] + [rest[i]] + rest[i + 1..];
      r := r + [rest[i]];
      rest := rest[..i] + rest[i + 1..];
    }
  }

  /** The test of the innermost loop of `combinations`: ps may be extended by x. */
  predicate Extends(ps: seq<int>, x: int)
  {
    ps == [] || ps[|ps| - 1] < x
  }

  /** What the loop over `previous` appends for one element x. */
  function Extensions(previous: seq<seq<int>>, x: int): seq<seq<int>>
  {
    if previous == [] then []
    else
      var rest := Extensions(previous[..|previous| - 1], x);
      var ps := previous[|previous| - 1];
      if Extends(ps, x) then rest + [ps + [x]] else rest
  }

  /** What one round of the outer loop builds from `previous`, going through the elements xs. */
  function Layer(previous: seq<seq<int>>, xs: seq<int>): seq<seq<int>>
  {
    if xs == [] then []
    else Layer(previous, xs[..|xs| - 1]) + Extensions(previous, xs[|xs| - 1])
  }

  /** The extensions by x are the vectors of `previous` that x may extend, with x appended. */
  lemma {:induction false} ExtensionsMembers(previous: seq<seq<int>>, x: int, c: seq<int>)
    ensures c in Extensions(previous, x) <==>
      |c| > 0 && c[|c| - 1] == x && c[..|c| - 1] in previous && Extends(c[..|c| - 1], x)
  {
    if previous != [] {
      var init := previous[..|previous| - 1];
      var ps := previous[|previous| - 1];
      ExtensionsMembers(init, x, c);
      assert previous == init + [ps];
      assert (ps + [x])[..|ps|] == ps;
      if |c| > 0 && c[|c| - 1] == x && c[..|c| - 1] == ps {
        assert c == ps + [x];
      }
    }
  }

  lemma {:induction false} ExtensionsDistinct(previous: seq<seq<int>>, x: int)
    requires Distinct(previous)
    ensures Distinct(Extensions(previous, x))
  {
    if previous != [] {
      var init := previous[..|previous| - 1];
      var ps := previous[|previous| - 1];
      assert Distinct(init);
      ExtensionsDistinct(init, x);
      if Extends(ps, x) {
        assert (ps + [x])[..|ps|] == ps;
        assert ps !in init;
        ExtensionsMembers(init, x, ps + [x]);
        DistinctAppend(Extensions(init, x), ps + [x]);
      }
    }
  }

  /**
   * A round of the outer loop yields the vectors c whose last element is
   * one of xs and whose other elements form a vector of `previous` that
   * the last element may extend.
   */
  lemma {:induction false} LayerMembers(previous: seq<seq<int>>, xs: seq<int>, c: seq<int>)
    ensures c in Layer(previous, xs) <==>
      |c| > 0 && c[|c| - 1] in xs && c[..|c| - 1] in previous && Extends(c[..|c| - 1], c[|c| - 1])
  {
    if xs != [] {
      LayerMembers(previous, xs[..|xs| - 1], c);
      ExtensionsMembers(previous, xs[|xs| - 1], c);
      assert xs == xs[..|xs| - 1] + [xs[|xs| - 1]];
    }
  }

  /** A round lists nothing twice when `previous` and the elements do not. */
  lemma {:induction false} LayerDistinct(previous: seq<seq<int>>, xs: seq<int>)
    requires Distinct(previous) && Distinct(xs)
    ensures Distinct(Layer(previous, xs))
  {
    if xs != [] {
      var init := xs[..|xs| - 1];
      var x := xs[|xs| - 1];
      assert Distinct(init);
      LayerDistinct(previous, init);
      ExtensionsDistinct(previous, x);
      forall c | c in Layer(previous, init)
        ensures c !in Extensions(previous, x)
      {
        LayerMembers(previous, init, c);
        ExtensionsMembers(previous, x, c);
      }
      DistinctConcat(Layer(previous, init), Extensions(previous, x));
    }
  }

  /** c lists a k-element subset of s in increasing order. */
  ghost predicate IsCombination(s: set<int>, k: int, c: seq<int>)
  {
    |c| == k && Increasing(c) && forall j :: 0 <= j < |c| ==> c[j] in s
  }

  /**
   * If `previous` holds exactly the increasing vectors of i elements of s,
   * and xs lists s, a round yields exactly those of i + 1 elements.
   */
  lemma LayerCombinations(s: set<int>, i: nat, previous: seq<seq<int>>, xs: seq<int>)
    requires forall c :: c in previous <==> IsCombination(s, i, c)
    requires forall x :: x in xs <==> x in s
    ensures forall c :: c in Layer(previous, xs) <==> IsCombination(s, i + 1, c)
  {
    forall c
      ensures c in Layer(previous, xs) <==> IsCombination(s, i + 1, c)
    {
      LayerMembers(previous, xs, c);
      if |c| > 0 {
        CombinationSplit(s, i, c);
      }
    }
  }

  /** A vector of i + 1 elements is a combination exactly when its last element extends the rest, a combination of i. */
  lemma CombinationSplit(s: set<int>, i: nat, c: seq<int>)
    requires |c| > 0
    ensures IsCombination(s, i + 1, c) <==>
      IsCombination(s, i, c[..|c| - 1]) && c[|c| - 1] in s && Extends(c[..|c| - 1], c[|c| - 1])
  {
    var init := c[..|c| - 1];
    var last := c[|c| - 1];
    if IsCombination(s, i + 1, c) {
      assert IsCombination(s, i, init);
      assert Extends(init, last) by {
        if init != [] {
          assert init[|init| - 1] == c[|c| - 2];
        }
      }
    }
    if IsCombination(s, i, init) && last in s && Extends(init, last) {
      forall a, b | 0 <= a < b < |c|
        ensures c[a] < c[b]
      {
        if b == |c| - 1 && a < |c| - 2 {
          assert c[a] < c[|c| - 2];
        }
      }
    }
  }

  /**
   * `combinations(s, k)`: every increasing vector of k elements of s, each
   * once; for k <= 0, the single empty vector.
   */
  method Combinations(s: set<int>, k: int) returns (ret: seq<seq<int>>)
    ensures forall c :: c in ret <==> IsCombination(s, if k < 0 then 0 else k, c)
    ensures Distinct(ret)
  {
    ret := [[]];
    var sv := Enumerate(s);
    var i := 0;
    while i < k
      invariant 0 <= i && (k >= 0 ==> i <= k) && (k < 0 ==> i == 0)
      invariant forall c :: c in ret <==> IsCombination(s, i, c)
      invariant Distinct(ret)
      decreases k - i
    {
      var previous := ret;
      ret := [];
      for m := 0 to |sv|
        invariant ret == Layer(previous, sv[..m])
      {
        var x := sv[m];
        for t := 0 to |previous|
          invariant ret == Layer(previous, sv[..m]) + Extensions(previous[..t], x)
        {
          var ps := previous[t];
          if ps == [] || ps[|ps| - 1] < x {
            ret := ret + [ps + [x]];
          }
          assert previous[..t + 1][..t] == previous[..t];
        }
        assert previous[..|previous|] == previous;
        assert sv[..m + 1][..m] == sv[..m];
      }
      assert sv[..|sv|] == sv;
      LayerCombinations(s, i, previous, sv);
      LayerDistinct(previous, sv);
      i := i + 1;
    }
  }

  /** The least element of a non-empty finite set. */
  ghost function MinOf(t: set<int>): (m: int)
    requires t != {}
    ensures m in t && forall y :: y in t ==> m <= y
    decreases t
  {
    HasElement(t);
    var x :| x in t;
    if t == {x} then
      assert forall y :: y in t ==> y == x;
      x
    else
      var r := MinOf(t - {x});
      assert forall y :: y in t ==> y == x || y in t - {x};
      if x < r then x else r
  }

  /** The elements of a finite set in increasing order. */
  ghost function SortedElements(t: set<int>): (r: seq<int>)
    ensures Increasing(r) && |r| == |t|
    ensures forall x :: x in r <==> x in t
    decreases t
  {
    if t == {} then []
    else
      var m := MinOf(t);
      var rest := SortedElements(t - {m});
      assert forall j :: 0 <= j < |rest| ==> m < rest[j] by {
        forall j | 0 <= j < |rest|
          ensures m < rest[j]
        {
          assert rest[j] in rest;
        }
      }
      [m] + rest
  }

  /** An increasing sequence is determined by its elements. */
  lemma {:induction false} IncreasingDetermined(c: seq<int>, d: seq<int>)
    requires Increasing(c) && Increasing(d)
    requires forall x :: x in c <==> x in d
    ensures c == d
  {
    if c != [] {
      assert c[0] in c;
    }
    if d != [] {
      assert d[0] in d;
    }
    if c != [] && d != [] {
      assert c[0] in d && d[0] in c;
      assert c[0] == d[0];
      forall x
        ensures x in c[1..] <==> x in d[1..]
      {
        assert x in c[1..] <==> x in c && x != c[0];
        assert x in d[1..] <==> x in d && x != d[0];
      }
      IncreasingDetermined(c[1..], d[1..]);
      assert c == [c[0]] + c[1..] && d == [d[0]] + d[1..];
    }
  }

  /**
   * Each k-element subset t of s is listed by exactly one increasing
   * vector: `combinations` holds every subset of size k exactly once.
   */
  lemma SubsetHasOneCombination(s: set<int>, k: int, t: set<int>)
    requires t <= s && |t| == k
    ensures IsCombination(s, k, SortedElements(t))
    ensures forall c :: IsCombination(s, k, c) && (forall x :: x in c <==> x in t) ==> c == SortedElements(t)
  {
    var r := SortedElements(t);
    assert forall j :: 0 <= j < |r| ==> r[j] in r;
    forall c | IsCombination(s, k, c) && (forall x :: x in c <==> x in t)
      ensures c == r
    {
      IncreasingDetermined(c, r);
    }
  }
}
