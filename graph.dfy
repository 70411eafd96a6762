/**
 * The undirected graph class `Graph<Vertex>` of TP4/ind/Graph.hpp, whose
 * members TP0/graph.hpp repeats line for line (TP0 adds `maxDegreeVertex`
 * and lists edges differently). Vertices are ints, as in every use of the
 * class; the adjacency map `adj` sends each vertex to its set of
 * neighbours. Iterating over an unordered map or set visits its elements in
 * an order the model leaves open.
 */
module Graphs {
  import opened Collections

  type Adjacency = map<int, set<int>>

  /** b is a neighbour of a (`containsEdge(a, b)`). */
  predicate Adjacent(adj: Adjacency, a: int, b: int)
  {
    a in adj && b in adj[a]
  }

  /** What `addEdge` and `removeEdge` keep: neighbours are vertices, edges go both ways, no loops. */
  ghost predicate Symmetric(adj: Adjacency)
  {
    forall a, b :: a in adj && b in adj[a] ==> b in adj && a in adj[b] && a != b
  }

  /** v and its neighbours: the value of `closedNeighbors(v)`. */
  function ClosedN(adj: Adjacency, v: int): set<int>
    requires v in adj
  {
    adj[v] + {v}
  }

  /** Each neighbour of each vertex in `from`, as an ordered pair: the degree sum counts these. */
  ghost function ArcsFrom(adj: Adjacency, from: set<int>): set<(int, int)>
  {
    set a, b | a in from && a in adj && b in adj[a] :: (a, b)
  }

  ghost function Arcs(adj: Adjacency): set<(int, int)>
  {
    ArcsFrom(adj, adj.Keys)
  }

  /** The undirected edges, each once, as (smaller, larger). */
  ghost function EdgeSet(adj: Adjacency): set<(int, int)>
  {
    set p | p in Arcs(adj) && p.0 < p.1
  }

  /** The arcs leaving a. */
  ghost function ArcsAt(adj: Adjacency, a: int): set<(int, int)>
    requires a in adj
  {
    set b | b in adj[a] :: (a, b)
  }

  /** The arcs leaving one vertex are as many as its neighbours. */
  lemma ArcsAtCard(adj: Adjacency, a: int)
    requires a in adj
    ensures |ArcsAt(adj, a)| == |adj[a]|
  {
    var arc := (b: int) => (a, b);
    forall p | p in ArcsAt(adj, a)
      ensures p.1 in adj[a] && arc(p.1) == p
    {
    }
    forall b | b in adj[a]
      ensures arc(b) in ArcsAt(adj, a)
    {
      assert arc(b) == (a, b);
    }
    ImageOfInjectiveCard(adj[a], ArcsAt(adj, a), arc);
  }

  /** Adding one more vertex to `from` adds exactly its arcs. */
  lemma ArcsFromStep(adj: Adjacency, from: set<int>, a: int)
    requires a in adj && a !in from
    ensures |ArcsFrom(adj, from + {a})| == |ArcsFrom(adj, from)| + |adj[a]|
  {
    var at := ArcsAt(adj, a);
    assert ArcsFrom(adj, from + {a}) == ArcsFrom(adj, from) + at;
    assert ArcsFrom(adj, from) !! at;
    ArcsAtCard(adj, a);
  }

  /**
   * The handshake lemma: in a symmetric, loop-free adjacency the degree sum
   * is twice the number of edges, hence even.
   */
  lemma Handshake(adj: Adjacency)
    requires Symmetric(adj)
    ensures |Arcs(adj)| == 2 * |EdgeSet(adj)|
  {
    var low := EdgeSet(adj);
    var high := HighArcs(adj);
    ArcsSplit(adj);
    var swap := (p: (int, int)) => (p.1, p.0);
    SwapLowHigh(adj, swap);
    ImageOfInjectiveCard(low, high, swap);
  }

  /** The arcs (larger, smaller): each edge once, the other way round from `EdgeSet`. */
  ghost function HighArcs(adj: Adjacency): set<(int, int)>
  {
    set p | p in Arcs(adj) && p.0 > p.1
  }

  lemma ArcsSplit(adj: Adjacency)
    requires Symmetric(adj)
    ensures Arcs(adj) == EdgeSet(adj) + HighArcs(adj)
    ensures EdgeSet(adj) !! HighArcs(adj)
  {
    forall p | p in Arcs(adj)
      ensures p.0 != p.1
    {
      ArcMember(adj, p);
    }
  }

  lemma SwapLowHigh(adj: Adjacency, swap: ((int, int)) -> (int, int))
    requires Symmetric(adj)
    requires forall p :: swap(p) == (p.1, p.0)
    ensures forall p :: p in EdgeSet(adj) ==> swap(p) in HighArcs(adj)
    ensures forall q :: q in HighArcs(adj) ==> exists p :: p in EdgeSet(adj) && swap(p) == q
  {
    forall p | p in EdgeSet(adj)
      ensures swap(p) in HighArcs(adj)
    {
      ArcMember(adj, p);
      ArcMember(adj, swap(p));
    }
    forall q | q in HighArcs(adj)
      ensures (q.1, q.0) in EdgeSet(adj) && swap((q.1, q.0)) == q
    {
      ArcMember(adj, q);
      ArcMember(adj, (q.1, q.0));
    }
  }

  lemma ArcMember(adj: Adjacency, p: (int, int))
    ensures p in Arcs(adj) <==> Adjacent(adj, p.0, p.1)
  {
    if Adjacent(adj, p.0, p.1) {
      assert p == (p.0, p.1);
    }
  }

  /** w can be reached from v by following edges. */
  ghost predicate IsPath(adj: Adjacency, path: seq<int>)
  {
    |path| > 0 && forall k :: 0 <= k < |path| - 1 ==> Adjacent(adj, path[k], path[k + 1])
  }

  ghost predicate Reachable(adj: Adjacency, v: int, w: int)
  {
    exists path :: IsPath(adj, path) && path[0] == v && path[|path| - 1] == w
  }

  /** A set holding v and closed under adjacency holds everything reachable from v. */
  lemma ClosedHoldsReachable(adj: Adjacency, v: int, s: set<int>, w: int)
    requires v in s && forall a, b :: a in s && Adjacent(adj, a, b) ==> b in s
    requires Reachable(adj, v, w)
    ensures w in s
  {
    var path :| IsPath(adj, path) && path[0] == v && path[|path| - 1] == w;
    var k := 0;
    while k < |path| - 1
      invariant 0 <= k < |path| && path[k] in s
    {
      k := k + 1;
    }
  }

  /** Following one more edge from a reachable vertex reaches its neighbour. */
  lemma ReachableStep(adj: Adjacency, v: int, u: int, w: int)
    requires Reachable(adj, v, u) && Adjacent(adj, u, w)
    ensures Reachable(adj, v, w)
  {
    var path :| IsPath(adj, path) && path[0] == v && path[|path| - 1] == u;
    var longer := path + [w];
    assert IsPath(adj, longer) && longer[0] == v && longer[|longer| - 1] == w;
  }

  class Graph {
    var adj: Adjacency

    ghost predicate Valid()
      reads this
    {
      Symmetric(adj)
    }

    /** `Graph()`: the empty graph. */
    constructor()
      ensures Valid() && adj == map[]
    {
      adj := map[];
    }

    /** The copy constructor: a graph with the same adjacency as `other`. */
    constructor Copy(other: Graph)
      requires other.Valid()
      ensures Valid() && adj == other.adj
    {
      adj := other.adj;
    }

    /** `addVertex`: adds v with no neighbours unless it is present; existing neighbours are untouched. */
    method AddVertex(v: int)
      requires Valid()
      modifies this
      ensures Valid()
      ensures adj.Keys == old(adj.Keys) + {v}
      ensures forall a :: a in old(adj) ==> adj[a] == old(adj[a])
      ensures v !in old(adj) ==> adj[v] == {}
    {
      if v !in adj {
        adj := adj[v := {}];
      }
    }

    /**
     * `addEdge`: ignores u == v; otherwise both endpoints become vertices and
     * the edge u–v is added in both directions, nothing else.
     */
    method AddEdge(u: int, v: int)
      requires Valid()
      modifies this
      ensures Valid()
      ensures u == v ==> adj == old(adj)
      ensures u != v ==> adj.Keys == old(adj.Keys) + {u, v}
      ensures u != v ==> forall a, b :: Adjacent(adj, a, b) <==>
        Adjacent(old(adj), a, b) || (a == u && b == v) || (a == v && b == u)
    {
      if u != v {
        var nu := if u in adj then adj[u] else {};
        adj := adj[u := nu + {v}];
        var nv := if v in adj then adj[v] else {};
        adj := adj[v := nv + {u}];
      }
    }

    /** `containsVertex`. */
    function ContainsVertex(v: int): (r: bool)
      reads this
      ensures r <==> v in adj
    {
      v in adj
    }

    /** `containsEdge`: false whenever u is absent; symmetric in a valid graph. */
    function ContainsEdge(u: int, v: int): (r: bool)
      reads this
      ensures r ==> u in adj && v in adj[u]
      ensures !r ==> u !in adj || v !in adj[u]
      ensures r && Valid() ==> v in adj && u != v && u in adj[v]
    {
      ContainsVertex(u) && v in adj[u]
    }

    /** `degree`: -1 for an absent vertex, else the number of neighbours. */
    function Degree(v: int): (d: int)
      reads this
      ensures v !in adj <==> d == -1
      ensures v in adj ==> d == |adj[v]| && d >= 0
    {
      if ContainsVertex(v) then |adj[v]| else -1
    }

    /** `maxDegree`: the largest degree, -1 on an empty graph. */
    method MaxDegree() returns (r: int)
      ensures adj == map[] <==> r == -1
      ensures forall v :: v in adj ==> |adj[v]| <= r
      ensures adj != map[] ==> exists v :: v in adj && |adj[v]| == r
    {
      r := -1;
      var rest := adj.Keys;
      while rest != {}
        invariant rest <= adj.Keys
        invariant forall v :: v in adj && v !in rest ==> |adj[v]| <= r
        invariant r == -1 <==> rest == adj.Keys
        invariant r != -1 ==> exists v :: v in adj && |adj[v]| == r
        decreases rest
      {
        HasElement(rest);
        var v :| v in rest;
        if r < |adj[v]| {
          r := |adj[v]|;
        }
        rest := rest - {v};
      }
    }

    /**
     * `maxDegreeVertex` (TP0 only): the first vertex met whose degree is the
     * maximum degree; the source throws on an empty graph, which is `None` here.
     */
    method MaxDegreeVertex() returns (r: Option<int>)
      ensures r == None <==> adj == map[]
      ensures r.Some? ==> r.value in adj && forall v :: v in adj ==> |adj[v]| <= |adj[r.value]|
    {
      var maxdeg := MaxDegree();
      r := None;
      var rest := adj.Keys;
      while rest != {} && r == None
        invariant rest <= adj.Keys
        invariant forall v :: v in adj && v !in rest ==> |adj[v]| != maxdeg || r != None
        invariant r.Some? ==> r.value in adj && |adj[r.value]| == maxdeg
        decreases rest
      {
        HasElement(rest);
        var v :| v in rest;
        if Degree(v) == maxdeg {
          r := Some(v);
        }
        rest := rest - {v};
      }
    }

    /** `countVertices`. */
    function CountVertices(): (n: nat)
      reads this
      ensures n == |adj.Keys|
    {
      |adj|
    }

    /**
     * `countEdges`: sums the degrees, checks the sum is even and halves it;
     * the result is the number of undirected edges.
     */
    method CountEdges() returns (r: int)
      requires Valid()
      ensures r == |EdgeSet(adj)|
      ensures 2 * r == |Arcs(adj)|
    {
      var ret := 0;
      var rest := adj.Keys;
      ghost var done: set<int> := {};
      while rest != {}
        invariant rest <= adj.Keys && done == adj.Keys - rest
        invariant ret == |ArcsFrom(adj, done)|
        decreases rest
      {
        HasElement(rest);
        var v :| v in rest;
        ArcsFromStep(adj, done, v);
        ret := ret + |adj[v]|;
        rest := rest - {v};
        done := done + {v};
      }
      assert done == adj.Keys;
      Handshake(adj);
      assert ret % 2 == 0;
      r := ret / 2;
    }

    /** `removeEdge`: nothing happens unless u–v is an edge; then both directions go. */
    method RemoveEdge(u: int, v: int)
      requires Valid()
      modifies this
      ensures Valid()
      ensures !Adjacent(old(adj), u, v) ==> adj == old(adj)
      ensures adj.Keys == old(adj.Keys)
      ensures forall a, b :: Adjacent(adj, a, b) <==>
        Adjacent(old(adj), a, b) && !(a == u && b == v) && !(a == v && b == u)
    {
      if ContainsEdge(u, v) {
        adj := adj[u := adj[u] - {v}];
        adj := adj[v := adj[v] - {u}];
      }
    }

    /**
     * `removeVertex`: removes each edge at v (iterating over a copy of its
     * neighbours), then v itself; the other adjacencies are unchanged.
     */
    method RemoveVertex(v: int)
      requires Valid()
      modifies this
      ensures Valid()
      ensures v !in old(adj) ==> adj == old(adj)
      ensures adj.Keys == old(adj.Keys) - {v}
      ensures forall a, b :: Adjacent(adj, a, b) <==> Adjacent(old(adj), a, b) && a != v && b != v
    {
      if ContainsVertex(v) {
        var neigh := adj[v];
        ghost var adj0 := adj;
        var rest := neigh;
        while rest != {}
          invariant Valid()
          invariant rest <= neigh && adj.Keys == adj0.Keys
          invariant forall a, b :: Adjacent(adj, a, b) <==>
            Adjacent(adj0, a, b) && !(a == v && b !in rest) && !(b == v && a !in rest)
          decreases rest
        {
          HasElement(rest);
          var u :| u in rest;
          RemoveEdge(u, v);
          rest := rest - {u};
        }
        adj := map a | a in adj && a != v :: adj[a];
      }
    }

    /** `clear`: removes every vertex and every edge. */
    method Clear()
      modifies this
      ensures Valid() && adj == map[]
      ensures forall a, b :: !Adjacent(adj, a, b)
    {
      adj := map[];
    }

    /** `vertices`: the set of vertices, collected by iterating over `adj`. */
    method Vertices() returns (r: set<int>)
      ensures r == adj.Keys
    {
      r := {};
      var rest := adj.Keys;
      while rest != {}
        invariant rest <= adj.Keys && r == adj.Keys - rest
        decreases rest
      {
        HasElement(rest);
        var v :| v in rest;
        r := r + {v};
        rest := rest - {v};
      }
    }

    /** `neighbors`: the source throws (`adj.at`) for an absent vertex. */
    function Neighbors(v: int): (r: set<int>)
      requires v in adj
      reads this
      ensures forall w :: w in r <==> Adjacent(adj, v, w)
    {
      adj[v]
    }

    /** `closedNeighbors`: the neighbours of v and v itself. */
    function ClosedNeighbors(v: int): (r: set<int>)
      requires v in adj
      reads this
      ensures forall w :: w in r <==> w == v || Adjacent(adj, v, w)
    {
      Neighbors(v) + {v}
    }

    /**
     * `edges` of TP4: lists the vertices in some order and keeps the pairs
     * (vs[i], vs[j]), i < j, that are edges. Every edge appears in exactly
     * one orientation. The source computes `vs.size() - 1` on an unsigned
     * size, so it needs a non-empty graph.
     */
    method Edges() returns (s: set<(int, int)>)
      requires Valid() && adj != map[]
      ensures forall p :: p in s ==> Adjacent(adj, p.0, p.1)
      ensures forall a, b :: Adjacent(adj, a, b) ==> (a, b) in s || (b, a) in s
      ensures forall a, b :: (a, b) in s ==> (b, a) !in s
    {
      var keys := Vertices();
      var vs := Enumerate(keys);
      s := {};
      for i := 0 to |vs| - 1
        invariant forall p :: p in s <==> exists x, y :: Kept(vs, x, y) && x < i && p == (vs[x], vs[y])
      {
        for j := i + 1 to |vs|
          invariant forall p :: p in s <==> exists x, y :: Kept(vs, x, y) && (x < i || (x == i && y < j)) && p == (vs[x], vs[y])
        {
          var u, v := vs[i], vs[j];
          if v in adj[u] {
            s := s + {(u, v)};
          }
        }
      }
      EdgesFromOrder(vs, s);
    }

    /** `edges` keeps the pair of positions x < y when they hold adjacent vertices. */
    ghost predicate Kept(vs: seq<int>, x: int, y: int)
      reads this
    {
      0 <= x < y < |vs| && Adjacent(adj, vs[x], vs[y])
    }

    /** The pairs that `edges` keeps cover each edge in exactly one orientation. */
    lemma EdgesFromOrder(vs: seq<int>, s: set<(int, int)>)
      requires Valid() && Distinct(vs) && forall x :: x in vs <==> x in adj
      requires forall p :: p in s <==> exists x, y :: Kept(vs, x, y) && x < |vs| - 1 && p == (vs[x], vs[y])
      ensures forall p :: p in s ==> Adjacent(adj, p.0, p.1)
      ensures forall a, b :: Adjacent(adj, a, b) ==> (a, b) in s || (b, a) in s
      ensures forall a, b :: (a, b) in s ==> (b, a) !in s
    {
      forall a, b | Adjacent(adj, a, b)
        ensures (a, b) in s || (b, a) in s
      {
        var x, y := IndexOf(vs, a), IndexOf(vs, b);
        if x < y {
          assert (a, b) == (vs[x], vs[y]);
        } else {
          assert x != y;
          assert (b, a) == (vs[y], vs[x]);
        }
      }
      forall a, b | (a, b) in s
        ensures (b, a) !in s
      {
        var x, y :| 0 <= x < y < |vs| && (a, b) == (vs[x], vs[y]);
        if (b, a) in s {
          assert false;
        }
      }
    }

    /**
     * `edges` of TP0: for each vertex v and each neighbour u < v, the pair
     * (u, v). Each undirected edge is listed exactly once, smaller end first,
     * so the list has `countEdges()` entries.
     */
    method OrderedEdges() returns (r: seq<(int, int)>)
      requires Valid()
      ensures forall k :: 0 <= k < |r| ==> r[k] in EdgeSet(adj)
      ensures forall p :: p in EdgeSet(adj) ==> p in r
      ensures Distinct(r)
      ensures |r| == |EdgeSet(adj)|
    {
      r := [];
      var rest := adj.Keys;
      while rest != {}
        invariant rest <= adj.Keys
        invariant Distinct(r)
        invariant forall p :: p in r <==> p in EdgeSet(adj) && p.1 !in rest
        decreases rest
      {
        HasElement(rest);
        var v :| v in rest;
        var neigh := adj[v];
        ghost var r0 := r;
        while neigh != {}
          invariant neigh <= adj[v]
          invariant Distinct(r)
          invariant forall p :: p in r <==> p in r0 || (p.1 == v && p.0 < v && p.0 in adj[v] && p.0 !in neigh)
          decreases neigh
        {
          HasElement(neigh);
          var u :| u in neigh;
          if u < v {
            r := r + [(u, v)];
          }
          neigh := neigh - {u};
        }
        rest := rest - {v};
      }
      DistinctCard(r);
      assert (set p | p in r) == EdgeSet(adj);
    }

    /**
     * `bfs`: a breadth-first traversal from v, stopped once `maxv` vertices
     * are listed; `maxv == 0` means the number of vertices and a negative
     * `maxv` is cast to a huge unsigned bound. The source throws when v is
     * absent. The result lists distinct vertices reachable from v, v first;
     * unless the bound stopped it, it lists every vertex reachable from v.
     */
    method Bfs(v: int, maxv: int) returns (ret: seq<int>)
      requires Valid() && v in adj
      ensures Distinct(ret)
      ensures |ret| <= BfsBound(maxv, |adj|)
      ensures BfsBound(maxv, |adj|) > 0 ==> |ret| > 0 && ret[0] == v
      ensures forall w :: w in ret ==> Reachable(adj, v, w)
      ensures |ret| < BfsBound(maxv, |adj|) ==> forall w :: Reachable(adj, v, w) ==> w in ret
    {
      var g := adj;
      var bound := BfsBound(maxv, |g|);
      var visited: set<int> := {};
      ret := [];
      var fifo := [v];
      assert IsPath(g, [v]);
      while fifo != [] && |ret| < bound
        invariant BfsState(g, v, visited, ret, fifo)
        invariant |ret| <= bound
        decreases |g.Keys - visited|, |fifo|
      {
        visited, ret, fifo := BfsStep(g, v, visited, ret, fifo);
      }
      if |ret| < bound {
        forall w | Reachable(g, v, w)
          ensures w in ret
        {
          ClosedHoldsReachable(g, v, visited, w);
        }
      }
    }
  }

  /** What holds between rounds of `bfs`: the visited vertices are those returned, all reachable, and the search is closed up to the queue. */
  ghost predicate BfsState(adj: Adjacency, v: int, visited: set<int>, ret: seq<int>, fifo: seq<int>)
  {
    && visited <= adj.Keys && (forall w :: w in visited <==> w in ret) && Distinct(ret)
    && AllReachable(adj, v, fifo) && AllReachable(adj, v, ret)
    && (ret == [] ==> fifo == [v])
    && (ret != [] ==> ret[0] == v)
    && ClosedUpTo(adj, visited, fifo)
  }

  /** One round of `bfs`: take the head of the queue and, if it is new, return it and queue its neighbours. */
  method BfsStep(adj: Adjacency, v: int, visited: set<int>, ret: seq<int>, fifo: seq<int>)
    returns (visited': set<int>, ret': seq<int>, fifo': seq<int>)
    requires Symmetric(adj) && fifo != [] && BfsState(adj, v, visited, ret, fifo)
    ensures BfsState(adj, v, visited', ret', fifo')
    ensures |ret'| <= |ret| + 1
    ensures |adj.Keys - visited'| < |adj.Keys - visited| || (visited' == visited && |fifo'| < |fifo|)
  {
    var u := fifo[0];
    if u in visited {
      visited', ret', fifo' := visited, ret, fifo[1..];
      forall w | w in fifo'
        ensures w in fifo
      {
      }
      return;
    }
    ghost var unvisited := adj.Keys - visited;
    ret' := ret + [u];
    visited' := visited + {u};
    assert adj.Keys - visited' < unvisited by {
      assert u in fifo;
    }
    SubsetCard(adj.Keys - visited', unvisited);
    DistinctAppend(ret, u);
    var ws := Enumerate(adj[u]);
    BfsVisit(adj, v, visited, u, fifo[1..], ws);
    fifo' := fifo[1..] + ws;
  }

  /** Every vertex listed is a vertex reachable from v. */
  ghost predicate AllReachable(adj: Adjacency, v: int, s: seq<int>)
  {
    forall w :: w in s ==> w in adj && Reachable(adj, v, w)
  }

  /** Each neighbour of a visited vertex is visited or waiting in the queue. */
  ghost predicate ClosedUpTo(adj: Adjacency, visited: set<int>, fifo: seq<int>)
  {
    forall a, b :: a in visited && Adjacent(adj, a, b) ==> b in visited || b in fifo
  }

  /** Visiting u, the head of the queue, and queueing its neighbours keeps both queue invariants. */
  lemma BfsVisit(adj: Adjacency, v: int, visited: set<int>, u: int, rest: seq<int>, ws: seq<int>)
    requires Symmetric(adj)
    requires ClosedUpTo(adj, visited, [u] + rest) && AllReachable(adj, v, [u] + rest)
    requires forall w :: w in ws <==> w in adj[u]
    ensures ClosedUpTo(adj, visited + {u}, rest + ws)
    ensures AllReachable(adj, v, rest + ws)
  {
    assert u in [u] + rest;
    forall w | w in ws
      ensures w in adj && Reachable(adj, v, w)
    {
      ReachableStep(adj, v, u, w);
    }
    forall a, b | a in visited + {u} && Adjacent(adj, a, b)
      ensures b in visited + {u} || b in rest + ws
    {
      if a != u {
        assert b in visited || b in [u] + rest;
      }
    }
    forall w | w in rest
      ensures w in [u] + rest
    {
    }
  }

  /** The bound of `bfs`: `maxv`, the vertex count for 0, and `(size_t) maxv` for negative values. */
  function BfsBound(maxv: int, vertexCount: nat): (bound: int)
    ensures bound >= 0
    ensures maxv > 0 ==> bound == maxv
    ensures maxv == 0 ==> bound == vertexCount
    ensures maxv < 0 ==> bound >= 0x1_0000_0000_0000_0000 - 0x8000_0000
  {
    if maxv == 0 then vertexCount
    else if maxv < 0 then if maxv >= -0x8000_0000 then maxv + 0x1_0000_0000_0000_0000 else 0x1_0000_0000_0000_0000 - 0x8000_0000
    else maxv
  }
}
