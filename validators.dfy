/**
 * The solution checkers TP2/testind.py and TP4/dom/testdom.py. Both read an
 * edge list, build an adjacency dict from it, and report the set of
 * offending vertices of a proposed solution; an empty report accepts it.
 * The two scripts share `readEdges` and `buildGraph` line for line, so they
 * are modelled once. Vertex ids are Python ints, unbounded like Dafny's.
 */
module Validators {
  import opened Collections
  import opened Graphs
  import Independence
  import Domination

  /** A line of the edge file: the ids of two vertices. */
  type Edge = (int, int)

  /** A vertex id packs a point (x, y) as x * IdBase + y. */
  const IdBase := 100000

  /**
   * The decode of `readEdges`: `(v // 100000, v % 100000)`. Python's `//`
   * and `%` round toward minus infinity, which for a positive divisor is
   * exactly Dafny's Euclidean `/` and `%`, negative ids included.
   */
  function Decode(v: int): (p: (int, int))
    ensures v == IdBase * p.0 + p.1 && 0 <= p.1 < IdBase
  {
    (v / IdBase, v % IdBase)
  }

  /** Packs a point into a vertex id, the inverse of `Decode`. */
  function Encode(p: (int, int)): int
  {
    IdBase * p.0 + p.1
  }

  /** Decoding an encoded point whose second coordinate is in range gives the point back. */
  lemma DecodeEncode(p: (int, int))
    requires 0 <= p.1 < IdBase
    ensures Decode(Encode(p)) == p
  {
    var q := Decode(Encode(p));
    assert IdBase * q.0 + q.1 == IdBase * p.0 + p.1;
  }

  /** Encoding a decoded id gives the id back: no two ids decode to the same point. */
  lemma EncodeDecode(v: int)
    ensures Encode(Decode(v)) == v
  {
  }

  /** x is an end of some edge of E. */
  ghost predicate Endpoint(E: seq<Edge>, x: int)
  {
    exists i :: 0 <= i < |E| && (E[i].0 == x || E[i].1 == x)
  }

  /** E lists the edge {a, b}, in one orientation or the other. */
  ghost predicate Linked(E: seq<Edge>, a: int, b: int)
  {
    exists i :: 0 <= i < |E| && (E[i] == (a, b) || E[i] == (b, a))
  }

  /** What `buildGraph(E)` returns: the ends of the edges as keys, and each edge both ways. */
  ghost predicate BuiltFrom(G: Adjacency, E: seq<Edge>)
  {
    && (forall x :: x in G <==> Endpoint(E, x))
    && (forall a, b :: a in G ==> (b in G[a] <==> Linked(E, a, b)))
  }

  /** One more edge adds its two ends. */
  lemma EndpointStep(E: seq<Edge>, i: nat)
    requires i < |E|
    ensures forall x :: Endpoint(E[..i + 1], x) <==> Endpoint(E[..i], x) || E[i].0 == x || E[i].1 == x
  {
    var longer := E[..i + 1];
    forall x
      ensures Endpoint(longer, x) <==> Endpoint(E[..i], x) || E[i].0 == x || E[i].1 == x
    {
      if Endpoint(E[..i], x) {
        var j :| 0 <= j < i && (E[..i][j].0 == x || E[..i][j].1 == x);
        assert longer[j] == E[..i][j];
      }
      if E[i].0 == x || E[i].1 == x {
        assert longer[i] == E[i];
      }
      if Endpoint(longer, x) {
        var j :| 0 <= j < i + 1 && (longer[j].0 == x || longer[j].1 == x);
        if j < i {
          assert E[..i][j] == longer[j];
        }
      }
    }
  }

  /** One more edge adds its two orientations. */
  lemma LinkedStep(E: seq<Edge>, i: nat)
    requires i < |E|
    ensures forall a, b :: Linked(E[..i + 1], a, b) <==> Linked(E[..i], a, b) || E[i] == (a, b) || E[i] == (b, a)
  {
    var longer := E[..i + 1];
    forall a, b
      ensures Linked(longer, a, b) <==> Linked(E[..i], a, b) || E[i] == (a, b) || E[i] == (b, a)
    {
      if Linked(E[..i], a, b) {
        var j :| 0 <= j < i && (E[..i][j] == (a, b) || E[..i][j] == (b, a));
        assert longer[j] == E[..i][j];
      }
      if E[i] == (a, b) || E[i] == (b, a) {
        assert longer[i] == E[i];
      }
      if Linked(longer, a, b) {
        var j :| 0 <= j < i + 1 && (longer[j] == (a, b) || longer[j] == (b, a));
        if j < i {
          assert E[..i][j] == longer[j];
        }
      }
    }
  }

  /** `buildGraph(E)`: adds v to the set of u and u to the set of v for every edge (u, v). */
  method BuildGraph(E: seq<Edge>) returns (G: Adjacency)
    ensures BuiltFrom(G, E)
  {
    G := map[];
    for i := 0 to |E|
      invariant BuiltFrom(G, E[..i])
    {
      ghost var before := G;
      var (u, v) := E[i];
      if u in G {
        G := G[u := G[u] + {v}];
      } else {
        G := G[u := {v}];
      }
      ghost var middle := G;
      if v in G {
        G := G[v := G[v] + {u}];
      } else {
        G := G[v := {u}];
      }
      AddBoth(before, u, v, middle, G);
      BuildStep(E, i, before, G);
    }
    assert E[..|E|] == E;
  }

  /** One pass of the loop of `buildGraph` takes the graph of a prefix to the graph of one more edge. */
  lemma BuildStep(E: seq<Edge>, i: nat, before: Adjacency, after: Adjacency)
    requires i < |E| && BuiltFrom(before, E[..i])
    requires forall x :: x in after <==> x in before || x == E[i].0 || x == E[i].1
    requires forall a, b :: a in after ==>
      (b in after[a] <==> (a in before && b in before[a]) || (a, b) == E[i] || (b, a) == E[i])
    ensures BuiltFrom(after, E[..i + 1])
  {
    BuildKeys(E, i, before, after);
    BuildLinks(E, i, before, after);
  }

  lemma BuildKeys(E: seq<Edge>, i: nat, before: Adjacency, after: Adjacency)
    requires i < |E| && forall x :: x in before <==> Endpoint(E[..i], x)
    requires forall x :: x in after <==> x in before || x == E[i].0 || x == E[i].1
    ensures forall x :: x in after <==> Endpoint(E[..i + 1], x)
  {
    EndpointStep(E, i);
  }

  lemma BuildLinks(E: seq<Edge>, i: nat, before: Adjacency, after: Adjacency)
    requires i < |E| && BuiltFrom(before, E[..i])
    requires forall a, b :: a in after ==>
      (b in after[a] <==> (a in before && b in before[a]) || (a, b) == E[i] || (b, a) == E[i])
    ensures forall a, b :: a in after ==> (b in after[a] <==> Linked(E[..i + 1], a, b))
  {
    LinkedStep(E, i);
    forall a, b
      ensures Linked(E[..i], a, b) ==> a in before
    {
      if Linked(E[..i], a, b) {
        LinkedEnds(E[..i], a, b);
      }
    }
  }

  /** Both ends of a listed edge are ends of the list. */
  lemma LinkedEnds(E: seq<Edge>, a: int, b: int)
    requires Linked(E, a, b)
    ensures Endpoint(E, a) && Endpoint(E, b)
  {
    var j :| 0 <= j < |E| && (E[j] == (a, b) || E[j] == (b, a));
  }

  /** The two updates of one loop pass add v to the set of u and u to the set of v, and nothing else. */
  lemma AddBoth(before: Adjacency, u: int, v: int, middle: Adjacency, after: Adjacency)
    requires middle == if u in before then before[u := before[u] + {v}] else before[u := {v}]
    requires after == if v in middle then middle[v := middle[v] + {u}] else middle[v := {u}]
    ensures forall x :: x in after <==> x in before || x == u || x == v
    ensures forall a, b :: a in after ==> (b in after[a] <==> (a in before && b in before[a]) || (a, b) == (u, v) || (b, a) == (u, v))
  {
  }

  /** The built adjacency is symmetric: b is a neighbour of a exactly when a is one of b. */
  lemma BuiltSymmetric(G: Adjacency, E: seq<Edge>)
    requires BuiltFrom(G, E)
    ensures forall a, b :: a in G && b in G[a] ==> b in G && a in G[b]
  {
    forall a, b | a in G && b in G[a]
      ensures b in G && a in G[b]
    {
      var i :| 0 <= i < |E| && (E[i] == (a, b) || E[i] == (b, a));
      assert Endpoint(E, b);
      assert Linked(E, b, a);
    }
  }

  /** No edge of E has both ends in I. */
  ghost predicate EdgeIndependent(E: seq<Edge>, I: set<int>)
  {
    forall i :: 0 <= i < |E| ==> !(E[i].0 in I && E[i].1 in I)
  }

  /** x is an end of an edge of E whose two ends are in I. */
  ghost predicate OnBadEdge(E: seq<Edge>, I: set<int>, x: int)
  {
    exists i :: 0 <= i < |E| && E[i].0 in I && E[i].1 in I && (E[i].0 == x || E[i].1 == x)
  }

  /** The report of `testInd`: members of I that are not vertices, and members of I on an edge inside I. */
  ghost function IndErrors(G: Adjacency, E: seq<Edge>, I: set<int>): set<int>
  {
    set x | x in I && (x !in G || OnBadEdge(E, I, x))
  }

  /** `testInd(G, E, I)`: flags the members of I that are not vertices, then both ends of every edge inside I. */
  method TestInd(G: Adjacency, E: seq<Edge>, I: set<int>) returns (err: set<int>)
    ensures err == IndErrors(G, E, I)
  {
    err := {};
    var rest := I;
    while rest != {}
      invariant rest <= I
      invariant err == set x | x in I - rest && x !in G
      decreases rest
    {
      HasElement(rest);
      var v :| v in rest;
      if v !in G {
        err := err + {v};
      }
      rest := rest - {v};
    }
    for i := 0 to |E|
      invariant err == set x | x in I && (x !in G || OnBadEdge(E[..i], I, x))
    {
      var (u, v) := E[i];
      ghost var before := err;
      if v in I && u in I {
        err := err + {u};
        err := err + {v};
      }
      forall x | x in I
        ensures OnBadEdge(E[..i + 1], I, x) <==> OnBadEdge(E[..i], I, x) || (u in I && v in I && (u == x || v == x))
      {
        BadEdgeStep(E, I, i, x);
      }
    }
    assert E[..|E|] == E;
  }

  /** One more edge flags its two ends when both are in I. */
  lemma BadEdgeStep(E: seq<Edge>, I: set<int>, i: nat, x: int)
    requires i < |E|
    ensures OnBadEdge(E[..i + 1], I, x) <==> OnBadEdge(E[..i], I, x) || (E[i].0 in I && E[i].1 in I && (E[i].0 == x || E[i].1 == x))
  {
    var longer := E[..i + 1];
    if OnBadEdge(E[..i], I, x) {
      var j :| 0 <= j < i && E[..i][j].0 in I && E[..i][j].1 in I && (E[..i][j].0 == x || E[..i][j].1 == x);
      assert longer[j] == E[..i][j];
    }
    if E[i].0 in I && E[i].1 in I && (E[i].0 == x || E[i].1 == x) {
      assert longer[i] == E[i];
    }
    if OnBadEdge(longer, I, x) {
      var j :| 0 <= j < i + 1 && longer[j].0 in I && longer[j].1 in I && (longer[j].0 == x || longer[j].1 == x);
      if j < i {
        assert E[..i][j] == longer[j];
      }
    }
  }

  /**
   * `testInd` only flags members of I, flags both ends of every edge inside
   * I, and reports nothing exactly when I is a set of vertices no edge joins.
   */
  lemma IndErrorsMeaning(G: Adjacency, E: seq<Edge>, I: set<int>)
    ensures IndErrors(G, E, I) <= I
    ensures forall i :: 0 <= i < |E| && E[i].0 in I && E[i].1 in I ==> E[i].0 in IndErrors(G, E, I) && E[i].1 in IndErrors(G, E, I)
    ensures IndErrors(G, E, I) == {} <==> I <= G.Keys && EdgeIndependent(E, I)
  {
    var err := IndErrors(G, E, I);
    forall i | 0 <= i < |E| && E[i].0 in I && E[i].1 in I
      ensures E[i].0 in err && E[i].1 in err
    {
      assert OnBadEdge(E, I, E[i].0) && OnBadEdge(E, I, E[i].1);
    }
    if err == {} {
      forall x | x in I
        ensures x in G
      {
        assert x !in err;
      }
    }
    if I <= G.Keys && EdgeIndependent(E, I) {
      forall x
        ensures x !in err
      {
        if x in I {
          assert x in G && !OnBadEdge(E, I, x);
        }
      }
    }
  }

  /**
   * On the graph `buildGraph` makes of E, the sets `testInd` accepts are
   * exactly the sets of vertices that are independent in the solver's sense.
   */
  lemma AcceptsIndependent(G: Adjacency, E: seq<Edge>, I: set<int>)
    requires BuiltFrom(G, E)
    ensures IndErrors(G, E, I) == {} <==> I <= G.Keys && Independence.Independent(G, I)
  {
    IndErrorsMeaning(G, E, I);
    if EdgeIndependent(E, I) {
      forall a, b | a in I && b in I && a in G
        ensures b !in G[a]
      {
        if b in G[a] {
          var i :| 0 <= i < |E| && (E[i] == (a, b) || E[i] == (b, a));
        }
      }
    }
    if I <= G.Keys && Independence.Independent(G, I) {
      forall i | 0 <= i < |E|
        ensures !(E[i].0 in I && E[i].1 in I)
      {
        var (a, b) := E[i];
        assert Linked(E, a, b) && Endpoint(E, a);
      }
    }
  }

  /** The report of `testDom`: members of D that are not vertices, and vertices with no closed neighbour in D. */
  ghost function DomErrors(G: Adjacency, D: set<int>): set<int>
  {
    (set x | x in D && x !in G) + (set x | x in G && (G[x] + {x}) * D == {})
  }

  /** `testDom(G, D)`: flags the members of D that are not vertices, then every vertex D does not dominate. */
  method TestDom(G: Adjacency, D: set<int>) returns (err: set<int>)
    ensures err == DomErrors(G, D)
  {
    err := {};
    var rest := D;
    while rest != {}
      invariant rest <= D
      invariant err == set x | x in D - rest && x !in G
      decreases rest
    {
      HasElement(rest);
      var v :| v in rest;
      if v !in G {
        err := err + {v};
      }
      rest := rest - {v};
    }
    ghost var missing := err;
    var items := G.Keys;
    while items != {}
      invariant items <= G.Keys
      invariant err == missing + set x | x in G.Keys - items && (G[x] + {x}) * D == {}
      decreases items
    {
      HasElement(items);
      var v :| v in items;
      var neighbors := G[v];
      if (neighbors + {v}) * D == {} {
        err := err + {v};
      }
      items := items - {v};
    }
  }

  /**
   * A vertex in D is never reported as undominated, and `testDom` reports
   * nothing exactly when D is a dominating set in the solver's sense.
   */
  lemma DomErrorsMeaning(G: Adjacency, D: set<int>)
    ensures forall x :: x in D && x in G ==> x !in DomErrors(G, D)
    ensures DomErrors(G, D) == {} <==> Domination.IsDominatingSet(G, D)
  {
    var err := DomErrors(G, D);
    forall x | x in D && x in G
      ensures x !in err
    {
      assert x in (G[x] + {x}) * D;
    }
    if err == {} {
      forall x | x in D
        ensures x in G
      {
        assert x !in err;
      }
      forall u | u in G
        ensures u in Domination.Dominated(G, D)
      {
        assert u !in err;
        assert ClosedN(G, u) == G[u] + {u};
      }
    }
    if Domination.IsDominatingSet(G, D) {
      forall x
        ensures x !in err
      {
        if x in G {
          assert x in Domination.Dominated(G, D);
          assert ClosedN(G, x) == G[x] + {x};
        }
      }
    }
  }
}
