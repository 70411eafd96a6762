/**
 * Helpers shared by the models: an Option type, the enumeration of a finite
 * set in an unspecified order (the iteration order of a hash set), and a few
 * facts about the cardinality of sets.
 */
module Collections {

  datatype Option<+T> = None | Some(value: T)

  /** No element occurs twice in `s`. */
  predicate Distinct<T(==)>(s: seq<T>)
  {
    forall i, j :: 0 <= i < j < |s| ==> s[i] != s[j]
  }

  /** Appending a new element keeps a sequence duplicate-free. */
  lemma DistinctAppend<T>(s: seq<T>, x: T)
    requires Distinct(s) && x !in s
    ensures Distinct(s + [x])
  {
    forall i, j | 0 <= i < j < |s| + 1
      ensures (s + [x])[i] != (s + [x])[j]
    {
      if j == |s| {
        assert s[i] in s;
      }
    }
  }

  /** Two duplicate-free sequences with no element in common concatenate to a duplicate-free one. */
  lemma DistinctConcat<T>(a: seq<T>, b: seq<T>)
    requires Distinct(a) && Distinct(b)
    requires forall x :: x in a ==> x !in b
    ensures Distinct(a + b)
  {
    forall i, j | 0 <= i < j < |a| + |b|
      ensures (a + b)[i] != (a + b)[j]
    {
      if i < |a| <= j {
        assert a[i] in a && b[j - |a|] in b;
      }
    }
  }

  /** The set of the elements of s. */
  function Elems<T>(s: seq<T>): set<T>
  {
    set x | x in s
  }

  /** One more element of the prefix adds it to the prefix's elements. */
  lemma ElemsStep<T>(s: seq<T>, i: nat)
    requires i < |s|
    ensures Elems(s[..i + 1]) == Elems(s[..i]) + {s[i]}
  {
    assert s[..i + 1] == s[..i] + [s[i]];
  }

  /** A subset is no larger; a proper subset is smaller. */
  lemma SubsetCard<T>(a: set<T>, b: set<T>)
    requires a <= b
    ensures |a| <= |b|
    ensures a < b ==> |a| < |b|
  {
    assert b == a + (b - a);
    if a < b {
      var x :| x in b - a;
      assert |b - a| >= |{x}|;
    }
  }

  /** Taking away a subset takes away its size. */
  lemma DifferenceCard<T>(a: set<T>, b: set<T>)
    requires b <= a
    ensures |a - b| == |a| - |b|
  {
    assert a == (a - b) + b;
  }

  /** A union is no larger than its parts together. */
  lemma UnionCard<T>(a: set<T>, b: set<T>)
    ensures |a + b| <= |a| + |b|
  {
    assert a + b == a + (b - a);
    SubsetCard(b - a, b);
  }

  /** Strictly increasing, hence free of duplicates. */
  predicate Increasing(s: seq<int>)
  {
    forall i, j :: 0 <= i < j < |s| ==> s[i] < s[j]
  }

  /** The indices 0 .. n-1, in order (what `std::iota` fills in). */
  function Range(n: nat): (r: seq<int>)
    ensures |r| == n
    ensures forall i :: 0 <= i < n ==> r[i] == i
  {
    seq(n, i => i)
  }

  /**
   * Lists the elements of a finite set once each, in an order the model
   * leaves open: this is how the sources iterate over an unordered_set or
   * copy it into a vector.
   */
  method Enumerate(s: set<int>) returns (r: seq<int>)
    ensures |r| == |s|
    ensures forall x :: x in r <==> x in s
    ensures Distinct(r)
  {
    r := [];
    var rest := s;
    while rest != {}
      invariant rest <= s
      invariant forall y :: y in r <==> y in s && y !in rest
      invariant Distinct(r)
      invariant |r| + |rest| == |s|
      decreases rest
    {
      HasElement(rest);
      var x :| x in rest;
      r := r + [x];
      rest := rest - {x};
    }
  }

  /** The position of the first occurrence of `x` in `s`. */
  function IndexOf<T(==)>(s: seq<T>, x: T): (m: nat)
    requires x in s
    ensures m < |s| && s[m] == x
    ensures forall k :: 0 <= k < m ==> s[k] != x
  {
    if s[0] == x then 0 else 1 + IndexOf(s[1..], x)
  }

  /** A non-empty set of vertices has an element to pick. */
  lemma HasElement(s: set<int>)
    requires s != {}
    ensures exists x :: x in s
  {
    if forall x :: x !in s {
      assert false;
    }
  }

  /** A function that is injective on `s` maps it onto a set of the same size. */
  lemma {:induction false} InjectiveImageCard<A, B>(s: set<A>, f: A -> B)
    requires forall x, y :: x in s && y in s && f(x) == f(y) ==> x == y
    ensures |(set x | x in s :: f(x))| == |s|
    decreases |s|
  {
    if s != {} {
      var x :| x in s;
      var rest := s - {x};
      InjectiveImageCard(rest, f);
      var img := set y | y in s :: f(y);
      var imgRest := set y | y in rest :: f(y);
      assert img == imgRest + {f(x)};
      assert f(x) !in imgRest;
    }
  }

  /** A set that is the image of `s` under a function injective on `s` has the size of `s`. */
  lemma ImageOfInjectiveCard<A, B>(s: set<A>, t: set<B>, f: A -> B)
    requires forall x, y :: x in s && y in s && f(x) == f(y) ==> x == y
    requires forall x :: x in s ==> f(x) in t
    requires forall y :: y in t ==> exists x :: x in s && f(x) == y
    ensures |t| == |s|
  {
    InjectiveImageCard(s, f);
    assert t == set x | x in s :: f(x);
  }

  /** A set covered by the image of `s` is no larger than `s`. */
  lemma CoveredByImageCard<A, B>(s: set<A>, t: set<B>, f: A -> B)
    requires forall y :: y in t ==> exists x :: x in s && f(x) == y
    ensures |t| <= |s|
  {
    ImageCardAtMost(s, f);
    var image := set x | x in s :: f(x);
    assert t <= image;
    assert image == t + (image - t);
  }

  /** The image of a set under any function is no larger than the set. */
  lemma {:induction false} ImageCardAtMost<A, B>(s: set<A>, f: A -> B)
    ensures |(set x | x in s :: f(x))| <= |s|
    decreases |s|
  {
    if s != {} {
      var x :| x in s;
      var rest := s - {x};
      ImageCardAtMost(rest, f);
      var img := set y | y in s :: f(y);
      var imgRest := set y | y in rest :: f(y);
      assert img == imgRest + {f(x)};
    }
  }

  /** A set that holds every number 0 .. c-1 has at least c elements. */
  lemma {:induction false} PrefixSubsetCard(s: set<int>, c: nat)
    requires forall i :: 0 <= i < c ==> i in s
    ensures c <= |s|
    decreases c
  {
    if c > 0 {
      var smaller := s - {c - 1};
      assert forall i :: 0 <= i < c - 1 ==> i in smaller;
      PrefixSubsetCard(smaller, c - 1);
    }
  }

  /** The elements of a duplicate-free sequence form a set of its length. */
  lemma {:induction false} DistinctCard<T>(s: seq<T>)
    requires Distinct(s)
    ensures |(set x | x in s)| == |s|
    decreases |s|
  {
    if s != [] {
      var last := s[|s| - 1];
      var init := s[..|s| - 1];
      assert Distinct(init);
      DistinctCard(init);
      assert (set x | x in s) == (set x | x in init) + {last};
      assert last !in init;
    }
  }
}
