/**
 * The independent-set heuristic `Solver<Vertex>` of TP2/Solver.hpp. It keeps
 * a set `independent` of pairwise non-adjacent vertices of a graph it does
 * not change, and for every vertex u the number `dependency[u]` of members
 * of that set among u and its neighbours. A vertex whose count is zero can
 * join the set. The greedy pass takes vertices by increasing degree and
 * drops each chosen vertex's closed neighbourhood from its queue; `improve`
 * takes one member out at random and then adds zero-count vertices at
 * random until none is left.
 */
module Independence {
  import opened Collections
  import opened Graphs
  import Sorting
  import Tools

  /** No two vertices of s are adjacent. */
  ghost predicate Independent(adj: Adjacency, s: set<int>)
  {
    forall a, b :: a in s && b in s && a in adj ==> b !in adj[a]
  }

  /** No vertex outside s can join it without breaking independence. */
  ghost predicate Maximal(adj: Adjacency, s: set<int>)
  {
    forall u :: u in adj && u !in s ==> !Independent(adj, s + {u})
  }

  /** How many vertices of ind lie in the closed neighbourhood of u: what `dependancy[u]` is meant to hold. */
  function Count(adj: Adjacency, ind: set<int>, u: int): nat
    requires u in adj
  {
    |ClosedN(adj, u) * ind|
  }

  /** dep holds the count of every vertex of the graph, and nothing else. */
  ghost predicate Counts(adj: Adjacency, ind: set<int>, dep: map<int, int>)
  {
    && dep.Keys == adj.Keys
    && forall u :: u in adj ==> dep[u] == Count(adj, ind, u)
  }

  /**
   * The map after adding `delta` to the entry of every vertex of `closed`;
   * a missing entry counts as 0 and is created, as `operator[]` does.
   */
  function Shift(dep: map<int, int>, closed: set<int>, delta: int): map<int, int>
  {
    map u | u in dep.Keys + closed :: (if u in dep then dep[u] else 0) + (if u in closed then delta else 0)
  }

  /** Inserting a vertex outside ind raises by one exactly the counts of its closed neighbours. */
  lemma CountInsert(adj: Adjacency, ind: set<int>, v: int, u: int)
    requires Symmetric(adj) && v in adj && u in adj && v !in ind
    ensures Count(adj, ind + {v}, u) == Count(adj, ind, u) + (if u in ClosedN(adj, v) then 1 else 0)
  {
    var c := ClosedN(adj, u);
    if u in ClosedN(adj, v) {
      assert v in c;
      assert c * (ind + {v}) == c * ind + {v};
    } else {
      assert v !in c;
      assert c * (ind + {v}) == c * ind;
    }
  }

  /** Erasing a member of ind lowers by one exactly the counts of its closed neighbours. */
  lemma CountErase(adj: Adjacency, ind: set<int>, v: int, u: int)
    requires Symmetric(adj) && v in adj && u in adj && v in ind
    ensures Count(adj, ind - {v}, u) == Count(adj, ind, u) - (if u in ClosedN(adj, v) then 1 else 0)
  {
    CountInsert(adj, ind - {v}, v, u);
    assert ind - {v} + {v} == ind;
  }

  /** `incrementNeighbors(v)` after inserting v keeps every count right. */
  lemma CountsInsert(adj: Adjacency, ind: set<int>, dep: map<int, int>, v: int)
    requires Symmetric(adj) && Counts(adj, ind, dep) && v in adj && v !in ind
    ensures Counts(adj, ind + {v}, Shift(dep, ClosedN(adj, v), 1))
  {
    var next := Shift(dep, ClosedN(adj, v), 1);
    ClosedNInGraph(adj, v);
    forall u | u in adj
      ensures next[u] == Count(adj, ind + {v}, u)
    {
      CountInsert(adj, ind, v, u);
    }
  }

  /** `decrementNeighbors(v)` before erasing v keeps every count right. */
  lemma CountsErase(adj: Adjacency, ind: set<int>, dep: map<int, int>, v: int)
    requires Symmetric(adj) && Counts(adj, ind, dep) && v in adj && v in ind
    ensures Counts(adj, ind - {v}, Shift(dep, ClosedN(adj, v), -1))
  {
    var next := Shift(dep, ClosedN(adj, v), -1);
    ClosedNInGraph(adj, v);
    forall u | u in adj
      ensures next[u] == Count(adj, ind - {v}, u)
    {
      CountErase(adj, ind, v, u);
    }
  }

  /** The closed neighbourhood of a vertex of a symmetric graph holds only vertices. */
  lemma ClosedNInGraph(adj: Adjacency, v: int)
    requires Symmetric(adj) && v in adj
    ensures ClosedN(adj, v) <= adj.Keys
  {
    forall w | w in ClosedN(adj, v)
      ensures w in adj
    {
      if w != v {
        assert w in adj[v];
      }
    }
  }

  /** Every count of the empty set is zero. */
  lemma CountsEmpty(adj: Adjacency, dep: map<int, int>)
    requires dep.Keys == adj.Keys && forall u :: u in dep ==> dep[u] == 0
    ensures Counts(adj, {}, dep)
  {
    forall u | u in adj
      ensures Count(adj, {}, u) == 0
    {
      assert ClosedN(adj, u) * {} == {};
    }
  }

  /** A vertex of count zero is outside ind and can join it: ind + {v} stays independent. */
  lemma ZeroCountExtends(adj: Adjacency, ind: set<int>, v: int)
    requires Symmetric(adj) && Independent(adj, ind) && v in adj && Count(adj, ind, v) == 0
    ensures v !in ind && Independent(adj, ind + {v})
  {
    var c := ClosedN(adj, v);
    assert c * ind == {};
    forall a, b | a in ind + {v} && b in ind + {v} && a in adj
      ensures b !in adj[a]
    {
    }
  }

  /**
   * For an independent set with right counts, every count is at least one
   * exactly when the set is maximal.
   */
  lemma PositiveCountsMaximal(adj: Adjacency, ind: set<int>, dep: map<int, int>)
    requires Symmetric(adj) && Independent(adj, ind) && Counts(adj, ind, dep)
    ensures (forall u :: u in dep ==> dep[u] >= 1) <==> Maximal(adj, ind)
  {
    if forall u :: u in dep ==> dep[u] >= 1 {
      forall u | u in adj && u !in ind
        ensures !Independent(adj, ind + {u})
      {
        var c := ClosedN(adj, u) * ind;
        assert |c| >= 1;
        HasElement(c);
        var w :| w in c;
        assert w != u && w in adj[u];
      }
    }
    if Maximal(adj, ind) {
      forall u | u in dep
        ensures dep[u] >= 1
      {
        if dep[u] == 0 {
          ZeroCountExtends(adj, ind, u);
        }
      }
    }
  }

  /** `s` without the elements of `c`, the others in their order: what `remove_if` leaves. */
  function Without(s: seq<int>, c: set<int>): seq<int>
  {
    if s == [] then []
    else Without(s[..|s| - 1], c) + (if s[|s| - 1] in c then [] else [s[|s| - 1]])
  }

  /** Exactly the elements of s outside c survive, and the result is no longer than s. */
  lemma {:induction false} WithoutMembers(s: seq<int>, c: set<int>)
    ensures forall x :: x in Without(s, c) <==> x in s && x !in c
    ensures |Without(s, c)| <= |s|
    ensures (exists x :: x in s && x in c) ==> |Without(s, c)| < |s|
    decreases |s|
  {
    if s != [] {
      var init := s[..|s| - 1];
      WithoutMembers(init, c);
      assert s == init + [s[|s| - 1]];
    }
  }

  /** Filtering commutes with concatenation: the survivors keep their relative order. */
  lemma {:induction false} WithoutConcat(a: seq<int>, b: seq<int>, c: set<int>)
    ensures Without(a + b, c) == Without(a, c) + Without(b, c)
    decreases |b|
  {
    if b == [] {
      assert a + b == a;
    } else {
      var init := b[..|b| - 1];
      WithoutConcat(a, init, c);
      assert (a + b)[..|a + b| - 1] == a + init;
    }
  }

  class Solver {
    /** The graph, which the solver never changes. */
    const adj: Adjacency
    /** The vertices of the graph, in the iteration order of `g.vertices()`. */
    const vertices: seq<int>
    var independent: set<int>
    var dependency: map<int, int>

    /** The set is independent and every count is right. */
    ghost predicate Valid()
      reads this`independent, this`dependency
    {
      && Symmetric(adj)
      && independent <= adj.Keys
      && Independent(adj, independent)
      && Counts(adj, independent, dependency)
    }

    /** `vertices` lists every vertex of the graph once. */
    ghost predicate ListsVertices()
    {
      Distinct(vertices) && forall v :: v in vertices <==> v in adj
    }

    /** `Solver(g)`: an empty set, and a zero count for every vertex. */
    constructor(g: Graph)
      requires g.Valid()
      ensures Valid() && ListsVertices() && adj == g.adj
      ensures independent == {} && forall u :: u in dependency ==> dependency[u] == 0
    {
      var vs := g.Vertices();
      var list := Enumerate(vs);
      var dep: map<int, int> := map[];
      for i := 0 to |list|
        invariant dep.Keys == Elems(list[..i])
        invariant forall u :: u in dep ==> dep[u] == 0
      {
        ElemsStep(list, i);
        dep := dep[list[i] := 0];
      }
      assert list[..|list|] == list;
      forall x
        ensures x in Elems(list) <==> x in vs
      {
        assert x in Elems(list) <==> x in list;
      }
      assert Elems(list) == vs;
      adj := g.adj;
      vertices := list;
      independent := {};
      dependency := dep;
      new;
      CountsEmpty(adj, dependency);
    }

    /** `incrementNeighbors(v)`: adds one to the count of every closed neighbour of v. */
    method IncrementNeighbors(v: int)
      requires v in adj
      modifies this`dependency
      ensures dependency == Shift(old(dependency), ClosedN(adj, v), 1)
    {
      var rest := ClosedN(adj, v);
      while rest != {}
        invariant rest <= ClosedN(adj, v)
        invariant dependency == Shift(old(dependency), ClosedN(adj, v) - rest, 1)
        decreases rest
      {
        HasElement(rest);
        var u :| u in rest;
        dependency := dependency[u := (if u in dependency then dependency[u] else 0) + 1];
        rest := rest - {u};
      }
    }

    /** `decrementNeighbors(v)`: subtracts one from the count of every closed neighbour of v. */
    method DecrementNeighbors(v: int)
      requires v in adj
      modifies this`dependency
      ensures dependency == Shift(old(dependency), ClosedN(adj, v), -1)
    {
      var rest := ClosedN(adj, v);
      while rest != {}
        invariant rest <= ClosedN(adj, v)
        invariant dependency == Shift(old(dependency), ClosedN(adj, v) - rest, -1)
        decreases rest
      {
        HasElement(rest);
        var u :| u in rest;
        dependency := dependency[u := (if u in dependency then dependency[u] else 0) - 1];
        rest := rest - {u};
      }
    }

    /**
     * `removeNeighborsFromQueue(list, v)`: drops v and its neighbours from
     * the queue and keeps the rest in order.
     */
    method RemoveNeighborsFromQueue(list: seq<int>, v: int) returns (r: seq<int>)
      requires v in adj
      ensures r == Without(list, ClosedN(adj, v))
    {
      var closed := ClosedN(adj, v);
      r := [];
      for i := 0 to |list|
        invariant r == Without(list[..i], closed)
      {
        assert list[..i + 1][..i] == list[..i];
        if list[i] !in closed {
          r := r + [list[i]];
        }
      }
      assert list[..|list|] == list;
    }

    /** `randomNeighborless()`: some vertex of count zero, or none when there is none. */
    method RandomNeighborless() returns (r: Option<int>)
      ensures r.None? <==> forall u :: u in dependency ==> dependency[u] != 0
      ensures r.Some? ==> r.value in dependency && dependency[r.value] == 0
    {
      var noNeighbors: seq<int> := [];
      var rest := dependency.Keys;
      while rest != {}
        invariant rest <= dependency.Keys
        invariant forall u :: u in noNeighbors ==> u in dependency && dependency[u] == 0
        invariant forall u :: u in dependency && u !in rest && dependency[u] == 0 ==> u in noNeighbors
        decreases rest
      {
        HasElement(rest);
        var u :| u in rest;
        if dependency[u] == 0 {
          noNeighbors := noNeighbors + [u];
        }
        rest := rest - {u};
      }
      if |noNeighbors| == 0 {
        return None;
      }
      var x := Tools.RandomElement(noNeighbors);
      return Some(x);
    }

    /** `removeRandomInd()`: takes one member out of a non-empty set, and its counts with it. */
    method RemoveRandomInd()
      requires Valid()
      modifies this`independent, this`dependency
      ensures Valid()
      ensures old(independent) == {} ==> independent == {} && dependency == old(dependency)
      ensures old(independent) != {} ==> independent <= old(independent) && |independent| == |old(independent)| - 1
    {
      if independent == {} {
        return;
      }
      HasElement(independent);
      var it :| it in independent;
      DecrementNeighbors(it);
      CountsErase(adj, independent, old(dependency), it);
      independent := independent - {it};
    }

    /**
     * Inserting a vertex of count zero and then `incrementNeighbors` on it,
     * as both `solve_greedy()` and `improve()` do: the vertex is new, and the
     * set stays independent with right counts.
     */
    method Take(v: int)
      requires Valid() && v in dependency && dependency[v] == 0
      modifies this`independent, this`dependency
      ensures Valid() && v !in old(independent)
      ensures independent == old(independent) + {v}
      ensures dependency == Shift(old(dependency), ClosedN(adj, v), 1)
    {
      ZeroCountExtends(adj, independent, v);
      CountsInsert(adj, independent, dependency, v);
      independent := independent + {v};
      IncrementNeighbors(v);
    }

    /**
     * `solve_greedy()`: takes the front of a queue of all vertices sorted by
     * degree, then drops its closed neighbourhood from the queue. The result
     * is a maximal independent set.
     */
    method SolveGreedy()
      requires Valid() && ListsVertices() && independent == {}
      modifies this`independent, this`dependency
      ensures Valid() && Maximal(adj, independent)
      ensures forall u :: u in dependency ==> dependency[u] >= 1
    {
      var graph := adj;
      var queue := Sorting.InsertionSort(vertices, (u: int) => if u in graph then |graph[u]| else -1);
      assert forall u :: u in queue <==> u in multiset(vertices);
      TakeQueue(queue);
      PositiveCountsMaximal(adj, independent, dependency);
    }

    /**
     * The loop of `solve_greedy()`: while the queue is not empty, takes its
     * front and drops the front's closed neighbourhood from it. Queued
     * vertices have count zero and the others a positive count, so at the end
     * every count is positive.
     */
    method TakeQueue(sorted: seq<int>)
      requires Valid()
      requires forall q :: q in sorted ==> q in dependency && dependency[q] == 0
      requires forall u :: u in dependency && u !in sorted ==> dependency[u] >= 1
      modifies this`independent, this`dependency
      ensures Valid() && old(independent) <= independent
      ensures forall u :: u in dependency ==> dependency[u] >= 1
    {
      var queue := sorted;
      while queue != []
        invariant Valid() && old(independent) <= independent
        invariant forall q :: q in queue ==> q in dependency && dependency[q] == 0
        invariant forall u :: u in dependency && u !in queue ==> dependency[u] >= 1
        decreases |queue|
      {
        var v := queue[0];
        Take(v);
        var next := RemoveNeighborsFromQueue(queue, v);
        WithoutMembers(queue, ClosedN(adj, v));
        queue := next;
      }
    }

    /**
     * `improve()`: takes a random member out, then adds random vertices of
     * count zero until there is none. The set stays a maximal independent
     * set, loses at most one member, and the result says whether it grew.
     */
    method Improve() returns (r: bool)
      requires Valid()
      modifies this`independent, this`dependency
      ensures Valid() && Maximal(adj, independent)
      ensures forall u :: u in dependency ==> dependency[u] >= 1
      ensures |independent| >= |old(independent)| - 1
      ensures r <==> |independent| > |old(independent)|
    {
      var ogSize := |independent|;
      RemoveRandomInd();
      ghost var reduced := independent;
      AddNeighborless();
      SubsetCard(reduced, independent);
      PositiveCountsMaximal(adj, independent, dependency);
      r := |independent| > ogSize;
    }

    /** The loop of `improve()`: adds vertices of count zero, picked at random, while there is one. */
    method AddNeighborless()
      requires Valid()
      modifies this`independent, this`dependency
      ensures Valid() && old(independent) <= independent
      ensures forall u :: u in dependency ==> dependency[u] >= 1
    {
      var opt := RandomNeighborless();
      while opt.Some?
        invariant Valid() && old(independent) <= independent
        invariant opt.Some? ==> opt.value in dependency && dependency[opt.value] == 0
        invariant opt.None? ==> forall u :: u in dependency ==> dependency[u] != 0
        decreases |adj.Keys - independent|
      {
        var v := opt.value;
        ghost var outside := adj.Keys - independent;
        Take(v);
        assert v in outside - (adj.Keys - independent);
        SubsetCard(adj.Keys - independent, outside);
        opt := RandomNeighborless();
      }
    }
  }
}
