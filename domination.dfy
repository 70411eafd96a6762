/**
 * The dominating-set solver `Solver<Vertex>` of TP3/dom/solver.hpp. It keeps
 * four sets in step with a graph it does not change: the dominating
 * vertices and the others, the dominated vertices (those with a closed
 * neighbour in the dominating set) and the others. A greedy pass with a
 * lazily updated priority queue builds a dominating set; `improve` erases
 * up to four dominating vertices around a random vertex and refills the
 * gap with an exhaustive search.
 */
module Domination {
  import opened Collections
  import opened Graphs
  import Tools

  /** The vertices with a closed neighbour in d. */
  function Dominated(adj: Adjacency, d: set<int>): set<int>
  {
    set u | u in adj && ClosedN(adj, u) * d != {}
  }

  /** d is a set of vertices that dominates every vertex. */
  predicate IsDominatingSet(adj: Adjacency, d: set<int>)
  {
    d <= adj.Keys && Dominated(adj, d) == adj.Keys
  }

  /** The union of the closed neighbourhoods of the vertices of d. */
  function Neighbourhood(adj: Adjacency, d: set<int>): set<int>
  {
    set v, u | v in d && v in adj && u in ClosedN(adj, v) :: u
  }

  /** When no vertex is left undominated, the dominating vertices form a dominating set. */
  lemma NothingLeft(adj: Adjacency, d: set<int>, dd: set<int>)
    requires d <= adj.Keys && dd == Dominated(adj, d) && adj.Keys - dd == {}
    ensures IsDominatingSet(adj, d)
  {
    assert adj.Keys == dd + (adj.Keys - dd);
  }

  /** Vertices taken out of a dominating set complete what is left of it. */
  lemma ErasedCompletes(adj: Adjacency, d: set<int>, dd: set<int>, removed: set<int>)
    requires d <= adj.Keys && dd == Dominated(adj, d) && adj.Keys - dd == {}
    requires removed <= d
    ensures Completes(adj, d - removed, removed)
    ensures |d - removed| + |removed| == |d|
  {
    NothingLeft(adj, d, dd);
    assert (d - removed) + removed == d;
    DifferenceCard(d, removed);
  }

  /** In a symmetric graph, u is in the closed neighbourhood of v exactly when v is in that of u. */
  lemma ClosedNSymmetric(adj: Adjacency, u: int, v: int)
    requires Symmetric(adj) && u in adj && v in adj
    ensures u in ClosedN(adj, v) <==> v in ClosedN(adj, u)
  {
  }

  /** Inserting v dominates exactly its closed neighbourhood in addition. */
  lemma InsertGain(adj: Adjacency, d: set<int>, v: int)
    requires Symmetric(adj) && v in adj
    ensures Dominated(adj, d + {v}) == Dominated(adj, d) + ClosedN(adj, v)
    ensures |Dominated(adj, d + {v})| == |Dominated(adj, d)| + |ClosedN(adj, v) - Dominated(adj, d)|
  {
    forall u | u in Dominated(adj, d + {v})
      ensures u in Dominated(adj, d) + ClosedN(adj, v)
    {
      if ClosedN(adj, u) * d == {} {
        assert v in ClosedN(adj, u);
        ClosedNSymmetric(adj, u, v);
      }
    }
    forall u | u in ClosedN(adj, v)
      ensures u in Dominated(adj, d + {v})
    {
      ClosedNSymmetric(adj, u, v);
      assert v in ClosedN(adj, u) * (d + {v});
    }
    assert Dominated(adj, d) + ClosedN(adj, v) == Dominated(adj, d) + (ClosedN(adj, v) - Dominated(adj, d));
  }

  /** The sets `insert_dominating(v)` leaves are again those of a valid solver. */
  lemma InsertState(adj: Adjacency, d: set<int>, dd: set<int>, nd: set<int>, v: int)
    requires Symmetric(adj) && v in adj
    requires dd == Dominated(adj, d) && nd == adj.Keys - dd
    ensures dd + ClosedN(adj, v) == Dominated(adj, d + {v})
    ensures nd - ClosedN(adj, v) == adj.Keys - (dd + ClosedN(adj, v))
  {
    InsertGain(adj, d, v);
  }

  /** The sets `erase_dominating(v)` leaves are again those of a valid solver. */
  lemma EraseState(adj: Adjacency, d: set<int>, dd: set<int>, nd: set<int>, v: int)
    requires Symmetric(adj) && v in adj
    requires d <= adj.Keys && dd == Dominated(adj, d) && nd == adj.Keys - dd
    ensures dd - Orphans(adj, d - {v}, v) == Dominated(adj, d - {v})
    ensures nd + Orphans(adj, d - {v}, v) == adj.Keys - (dd - Orphans(adj, d - {v}, v))
  {
    EraseLoss(adj, d, v);
  }

  /** The vertices of v's closed neighbourhood left with no closed neighbour in d. */
  function Orphans(adj: Adjacency, d: set<int>, v: int): set<int>
    requires v in adj
  {
    set u | u in ClosedN(adj, v) && u in adj && ClosedN(adj, u) * d == {}
  }

  /**
   * Erasing v undominates exactly the vertices of its closed neighbourhood
   * that have no other dominating closed neighbour.
   */
  lemma EraseLoss(adj: Adjacency, d: set<int>, v: int)
    requires Symmetric(adj) && v in adj
    ensures Dominated(adj, d - {v}) == Dominated(adj, d) - Orphans(adj, d - {v}, v)
  {
    forall u | u in Dominated(adj, d) && u !in Dominated(adj, d - {v})
      ensures u in ClosedN(adj, v)
    {
      assert v in ClosedN(adj, u);
      ClosedNSymmetric(adj, u, v);
    }
  }

  /**
   * `would_dominate_all` compares the undominated vertices with the
   * neighbourhood of the candidates: a subset exactly when inserting the
   * candidates would make the dominating set complete.
   */
  lemma CompletesDomination(adj: Adjacency, d: set<int>, s: set<int>)
    requires Symmetric(adj) && s <= adj.Keys
    ensures adj.Keys - Dominated(adj, d) <= Neighbourhood(adj, s) <==> Dominated(adj, d + s) == adj.Keys
  {
    if adj.Keys - Dominated(adj, d) <= Neighbourhood(adj, s) {
      forall u | u in adj
        ensures u in Dominated(adj, d + s)
      {
        if u !in Dominated(adj, d) {
          assert u in Neighbourhood(adj, s);
          var w :| w in s && w in adj && u in ClosedN(adj, w);
          ClosedNSymmetric(adj, u, w);
          assert w in ClosedN(adj, u) * (d + s);
        }
      }
    }
    if Dominated(adj, d + s) == adj.Keys {
      forall u | u in adj && u !in Dominated(adj, d)
        ensures u in Neighbourhood(adj, s)
      {
        assert u in Dominated(adj, d + s);
        var w :| w in ClosedN(adj, u) * (d + s);
        ClosedNSymmetric(adj, u, w);
      }
    }
  }

  /** Visiting one more element u of `closed` adds one to the count of undominated visited elements exactly when u is undominated. */
  lemma CountStep(closed: set<int>, rest: set<int>, dd: set<int>, u: int)
    requires rest <= closed && u in rest
    ensures |closed - (rest - {u}) - dd| == |closed - rest - dd| + (if u in dd then 0 else 1)
  {
    if u in dd {
      assert closed - (rest - {u}) - dd == closed - rest - dd;
    } else {
      assert closed - (rest - {u}) - dd == (closed - rest - dd) + {u};
    }
  }

  /** What `count_domination(v)` counts: the vertices inserting v would newly dominate. */
  function Gain(adj: Adjacency, dd: set<int>, v: int): nat
    requires v in adj
  {
    |ClosedN(adj, v) - dd|
  }

  /** Dominating more can only lower a gain. */
  lemma GainShrinks(adj: Adjacency, dd: set<int>, dd': set<int>, v: int)
    requires v in adj && dd <= dd'
    ensures Gain(adj, dd', v) <= Gain(adj, dd, v)
  {
    SubsetCard(ClosedN(adj, v) - dd', ClosedN(adj, v) - dd);
  }

  /** An undominated vertex does not dominate, and inserting it would dominate at least itself. */
  lemma UndominatedGain(adj: Adjacency, d: set<int>, u: int)
    requires u in adj && u !in Dominated(adj, d)
    ensures u !in d && Gain(adj, Dominated(adj, d), u) >= 1
  {
    assert u in ClosedN(adj, u) - Dominated(adj, d);
    SubsetCard({u}, ClosedN(adj, u) - Dominated(adj, d));
  }

  /** Inserting a vertex of positive gain leaves fewer vertices undominated. */
  lemma PositiveGainProgress(adj: Adjacency, dd: set<int>, v: int)
    requires Symmetric(adj) && v in adj && Gain(adj, dd, v) > 0
    ensures |adj.Keys - (dd + ClosedN(adj, v))| < |adj.Keys - dd|
  {
    var closed := ClosedN(adj, v) - dd;
    assert |closed| > 0;
    HasElement(closed);
    var x :| x in closed;
    SubsetCard(adj.Keys - (dd + ClosedN(adj, v)), adj.Keys - dd);
  }

  /** Adding x to a set of vertices adds x's closed neighbourhood to theirs. */
  lemma NeighbourhoodStep(adj: Adjacency, a: set<int>, x: int)
    requires x in adj
    ensures Neighbourhood(adj, a + {x}) == Neighbourhood(adj, a) + ClosedN(adj, x)
  {
    forall u | u in ClosedN(adj, x)
      ensures u in Neighbourhood(adj, a + {x})
    {
    }
  }

  /** In a symmetric graph closed neighbourhoods hold only vertices. */
  lemma NeighbourhoodInGraph(adj: Adjacency, a: set<int>)
    requires Symmetric(adj)
    ensures Neighbourhood(adj, a) <= adj.Keys
  {
  }

  /** c holds vertices whose insertion into d would leave no vertex undominated. */
  ghost predicate Completes(adj: Adjacency, d: set<int>, c: set<int>)
  {
    c <= adj.Keys && Dominated(adj, d + c) == adj.Keys
  }

  /** The closed neighbourhoods of the vertices of dom cover nd. */
  ghost predicate Covers(adj: Adjacency, nd: set<int>, dom: seq<int>)
  {
    nd <= Neighbourhood(adj, Elems(dom))
  }

  /** No combination of k candidates covers the undominated vertices nd. */
  ghost predicate NoneCompletes(adj: Adjacency, nd: set<int>, candidates: set<int>, k: int)
  {
    forall c :: Tools.IsCombination(candidates, k, c) ==> !Covers(adj, nd, c)
  }

  /**
   * The search of `solve_exact` is exhaustive: the candidates are the closed
   * neighbours of the undominated vertices, and when no combination of fewer
   * than k candidates covers those vertices, no set of fewer than k vertices
   * whatsoever completes the domination.
   */
  lemma ExactBound(adj: Adjacency, d: set<int>, nd: set<int>, candidates: set<int>, k: int)
    requires Symmetric(adj) && d <= adj.Keys && nd == adj.Keys - Dominated(adj, d)
    requires candidates == Neighbourhood(adj, nd)
    requires forall j :: 0 <= j < k ==> NoneCompletes(adj, nd, candidates, j)
    ensures forall c :: Completes(adj, d, c) ==> k <= |c|
  {
    forall c | Completes(adj, d, c)
      ensures k <= |c|
    {
      CandidatesSuffice(adj, d, candidates, c);
      CombinationOfCover(adj, nd, candidates, c * candidates);
      SubsetCard(c * candidates, c);
    }
  }

  /** Of a set completing the domination, the candidates alone cover the undominated vertices. */
  lemma CandidatesSuffice(adj: Adjacency, d: set<int>, candidates: set<int>, c: set<int>)
    requires Symmetric(adj) && Completes(adj, d, c)
    requires candidates == Neighbourhood(adj, adj.Keys - Dominated(adj, d))
    ensures adj.Keys - Dominated(adj, d) <= Neighbourhood(adj, c * candidates)
  {
    forall u | u in adj.Keys - Dominated(adj, d)
      ensures u in Neighbourhood(adj, c * candidates)
    {
      assert u in Dominated(adj, d + c);
      var w :| w in ClosedN(adj, u) * (d + c);
      ClosedNSymmetric(adj, u, w);
      assert w in candidates;
    }
  }

  /** A cover t drawn from the candidates is a combination of |t| candidates that covers. */
  lemma CombinationOfCover(adj: Adjacency, nd: set<int>, candidates: set<int>, t: set<int>)
    requires t <= candidates && nd <= Neighbourhood(adj, t)
    ensures !NoneCompletes(adj, nd, candidates, |t|)
  {
    var s := Tools.SortedElements(t);
    Tools.SubsetHasOneCombination(candidates, |t|, t);
    assert Elems(s) == t;
  }

  /**
   * After `solve_exact` inserts a smallest completing set e found among the
   * candidates, every vertex is dominated, no completing set is smaller than
   * what was inserted, and at most |removed| vertices were added.
   */
  lemma ExactOutcome(adj: Adjacency, d0: set<int>, dd0: set<int>, e: set<int>, d1: set<int>, dd1: set<int>,
                     size: nat, removed: set<int>)
    requires d1 <= adj.Keys && dd1 == Dominated(adj, d1)
    requires d1 == d0 + e && dd1 == dd0 + Neighbourhood(adj, e)
    requires adj.Keys - dd0 <= Neighbourhood(adj, e) && |e| == size
    requires forall c :: Completes(adj, d0, c) ==> size <= |c|
    requires Completes(adj, d0, removed)
    ensures adj.Keys - dd1 == {} && IsDominatingSet(adj, d1)
    ensures forall c :: Completes(adj, d0, c) ==> |d1 - d0| <= |c|
    ensures |d1| <= |d0| + |removed|
  {
    NothingLeft(adj, d1, dd1);
    SubsetCard(d1 - d0, e);
    UnionCard(d0, e);
  }

  /** `std::pair` order, by which the priority queue puts its largest entry on top. */
  predicate PairLess(a: (int, int), b: (int, int))
  {
    a.0 < b.0 || (a.0 == b.0 && a.1 < b.1)
  }

  /** Where the largest entry of a non-empty queue is. */
  function TopIndex(h: seq<(int, int)>): (i: nat)
    requires h != []
    ensures i < |h| && forall k :: 0 <= k < |h| ==> !PairLess(h[i], h[k])
  {
    if |h| == 1 then 0
    else
      var j := TopIndex(h[..|h| - 1]);
      if PairLess(h[j], h[|h| - 1]) then |h| - 1 else j
  }

  /** The queue without its entry at i. */
  function RemoveAt(h: seq<(int, int)>, i: nat): seq<(int, int)>
    requires i < |h|
  {
    h[..i] + h[i + 1..]
  }

  /** The vertices that have an entry in the queue. */
  function QueueVertices(h: seq<(int, int)>): set<int>
  {
    set k | 0 <= k < |h| :: h[k].1
  }

  /**
   * Every entry of the queue names a vertex with a non-negative value, and
   * a non-dominating vertex's value is at least its gain.
   */
  ghost predicate Bounds(adj: Adjacency, h: seq<(int, int)>, dom: set<int>, dd: set<int>)
  {
    forall k :: 0 <= k < |h| ==>
      h[k].0 >= 0 && h[k].1 in adj && (h[k].1 !in dom ==> h[k].0 >= Gain(adj, dd, h[k].1))
  }

  /** Bounds on gains stay bounds once more vertices dominate and are dominated. */
  lemma BoundsShrink(adj: Adjacency, h: seq<(int, int)>, dom: set<int>, dd: set<int>, dom': set<int>, dd': set<int>)
    requires Bounds(adj, h, dom, dd) && dom <= dom' && dd <= dd'
    ensures Bounds(adj, h, dom', dd')
  {
    forall k | 0 <= k < |h| && h[k].1 !in dom'
      ensures h[k].0 >= Gain(adj, dd', h[k].1)
    {
      GainShrinks(adj, dd, dd', h[k].1);
    }
  }

  /** A measure of the queue that every pop decreases, and a re-push with a smaller value too. */
  function Weight(h: seq<(int, int)>): nat
  {
    if h == [] then 0
    else Weight(h[..|h| - 1]) + (if h[|h| - 1].0 < 0 then 1 else h[|h| - 1].0 + 1)
  }

  lemma {:induction false} WeightRemove(h: seq<(int, int)>, i: nat)
    requires i < |h|
    ensures Weight(RemoveAt(h, i)) == Weight(h) - (if h[i].0 < 0 then 1 else h[i].0 + 1)
    decreases |h|
  {
    var last := |h| - 1;
    if i < last {
      WeightRemove(h[..last], i);
      assert RemoveAt(h, i)[..|h| - 2] == RemoveAt(h[..last], i);
      assert RemoveAt(h, i)[|h| - 2] == h[last];
    } else {
      assert RemoveAt(h, i) == h[..last];
    }
  }

  /** A push adds its entry's share to the measure and its vertex to the queue's vertices. */
  lemma Push(h: seq<(int, int)>, x: (int, int))
    ensures Weight(h + [x]) == Weight(h) + (if x.0 < 0 then 1 else x.0 + 1)
    ensures QueueVertices(h + [x]) == QueueVertices(h) + {x.1}
  {
    assert (h + [x])[..|h|] == h;
    forall w | w in QueueVertices(h)
      ensures w in QueueVertices(h + [x])
    {
      var k :| 0 <= k < |h| && h[k].1 == w;
      assert (h + [x])[k] == h[k];
    }
    assert (h + [x])[|h|] == x;
  }

  /** Pushing an entry that bounds its vertex's gain keeps the bounds. */
  lemma PushBounds(adj: Adjacency, h: seq<(int, int)>, dom: set<int>, dd: set<int>, x: (int, int))
    requires Bounds(adj, h, dom, dd) && x.0 >= 0 && x.1 in adj && (x.1 !in dom ==> x.0 >= Gain(adj, dd, x.1))
    ensures Bounds(adj, h + [x], dom, dd)
  {
    assert (h + [x])[|h|] == x;
  }

  /** Pushing a value no larger than b keeps b an upper bound. */
  lemma PushAtMost(h: seq<(int, int)>, x: (int, int), b: int)
    requires AtMost(h, b) && x.0 <= b
    ensures AtMost(h + [x], b)
  {
    assert (h + [x])[|h|] == x;
  }

  /** Every value in the queue is at most b. */
  predicate AtMost(h: seq<(int, int)>, b: int)
  {
    forall k :: 0 <= k < |h| ==> h[k].0 <= b
  }

  /** A queued non-dominating vertex has no larger gain than a bound on every queued value. */
  lemma QueuedGain(adj: Adjacency, h: seq<(int, int)>, dom: set<int>, dd: set<int>, w: int, b: int)
    requires Bounds(adj, h, dom, dd) && AtMost(h, b)
    requires w in QueueVertices(h) && w !in dom
    ensures Gain(adj, dd, w) <= b
  {
    var k :| 0 <= k < |h| && h[k].1 == w;
  }

  /**
   * After the popping loop of `choose_vertex()`, with some non-dominating
   * vertex u of positive gain: `best` is not empty and its common gain is
   * positive and the largest of any non-dominating vertex.
   */
  lemma BestIsLargest(adj: Adjacency, h: seq<(int, int)>, dom: set<int>, dd: set<int>, candidates: set<int>,
                      best: seq<int>, bestValue: int, u: int)
    requires Bounds(adj, h, dom, dd) && candidates <= adj.Keys
    requires forall w :: w in candidates ==> w !in dom
    requires forall w :: w in candidates ==> w in best || w in QueueVertices(h)
    requires forall w :: w in best ==> w in candidates && Gain(adj, dd, w) == bestValue
    requires best != [] ==> AtMost(h, bestValue)
    requires best == [] ==> h == []
    requires u in candidates && Gain(adj, dd, u) >= 1
    ensures best != [] && bestValue >= 1
    ensures forall w :: w in candidates ==> Gain(adj, dd, w) <= bestValue
  {
    assert h == [] ==> QueueVertices(h) == {};
    forall w | w in candidates
      ensures Gain(adj, dd, w) <= bestValue
    {
      if w !in best {
        QueuedGain(adj, h, dom, dd, w, bestValue);
      }
    }
  }

  /** Removing an entry keeps the other vertices, the bounds, and any upper bound on the values. */
  lemma RemoveAtVertices(h: seq<(int, int)>, i: nat)
    requires i < |h|
    ensures QueueVertices(h) - {h[i].1} <= QueueVertices(RemoveAt(h, i))
    ensures forall k :: 0 <= k < |RemoveAt(h, i)| ==> RemoveAt(h, i)[k] in h
  {
    forall w | w in QueueVertices(h) - {h[i].1}
      ensures w in QueueVertices(RemoveAt(h, i))
    {
      var k :| 0 <= k < |h| && h[k].1 == w;
      if k < i {
        assert RemoveAt(h, i)[k] == h[k];
      } else {
        assert RemoveAt(h, i)[k - 1] == h[k];
      }
    }
    forall k | 0 <= k < |RemoveAt(h, i)|
      ensures RemoveAt(h, i)[k] in h
    {
      if k < i {
        assert RemoveAt(h, i)[k] == h[k];
      } else {
        assert RemoveAt(h, i)[k] == h[k + 1];
      }
    }
  }

  /** Removing an entry keeps the bounds of the others. */
  lemma RemoveAtBounds(adj: Adjacency, h: seq<(int, int)>, dom: set<int>, dd: set<int>, i: nat)
    requires i < |h| && Bounds(adj, h, dom, dd)
    ensures Bounds(adj, RemoveAt(h, i), dom, dd)
  {
    RemoveAtVertices(h, i);
  }

  /** Removing an entry keeps an upper bound on the values. */
  lemma RemoveAtAtMost(h: seq<(int, int)>, i: nat, b: int)
    requires i < |h| && AtMost(h, b)
    ensures AtMost(RemoveAt(h, i), b)
  {
    RemoveAtVertices(h, i);
  }

  /** Once the top entry is removed, its value bounds every value left. */
  lemma RemoveTop(h: seq<(int, int)>)
    requires h != []
    ensures AtMost(RemoveAt(h, TopIndex(h)), h[TopIndex(h)].0)
  {
    RemoveAtVertices(h, TopIndex(h));
  }

  class Solver {
    const adj: Adjacency
    const vertices: seq<int>
    var dominating: set<int>
    var notDominating: set<int>
    var dominated: set<int>
    var notDominated: set<int>
    /** The priority queue of (value, vertex) pairs; its top is its largest pair. */
    var heap: seq<(int, int)>

    /** The four sets partition the vertices as their names say. */
    ghost predicate Valid()
      reads this`dominating, this`notDominating, this`dominated, this`notDominated
    {
      && Symmetric(adj)
      && dominating <= adj.Keys
      && notDominating == adj.Keys - dominating
      && dominated == Dominated(adj, dominating)
      && notDominated == adj.Keys - dominated
    }

    /** `vertices` lists the graph's vertices. */
    ghost predicate ListsVertices()
    {
      forall v :: v in vertices <==> v in adj
    }

    /** The queue's entries bound the gains of the vertices they name. */
    ghost predicate QueueBounds()
      reads this`heap, this`dominating, this`dominated
    {
      Bounds(adj, heap, dominating, dominated)
    }

    /** The constructor: nothing dominates and nothing is dominated yet. */
    constructor(graph: Graph)
      requires graph.Valid()
      ensures Valid() && ListsVertices() && adj == graph.adj
      ensures dominating == {} && dominated == {} && heap == []
    {
      adj := graph.adj;
      var vs := graph.Vertices();
      var vlist := Enumerate(vs);
      vertices := vlist;
      dominating := {};
      notDominating := vs;
      dominated := {};
      notDominated := vs;
      heap := [];
      new;
      assert Dominated(adj, {}) == {};
    }

    /** `insert_dominating(v)`: v dominates, and so its closed neighbourhood is dominated. */
    method InsertDominating(v: int)
      requires Valid() && v in adj
      modifies this`dominating, this`notDominating, this`dominated, this`notDominated
      ensures Valid()
      ensures dominating == old(dominating) + {v} && notDominating == old(notDominating) - {v}
      ensures dominated == old(dominated) + ClosedN(adj, v)
    {
      dominating := dominating + {v};
      notDominating := notDominating - {v};
      var rest := ClosedN(adj, v);
      while rest != {}
        invariant rest <= ClosedN(adj, v)
        invariant dominating == old(dominating) + {v} && notDominating == old(notDominating) - {v}
        invariant dominated == old(dominated) + (ClosedN(adj, v) - rest)
        invariant notDominated == old(notDominated) - (ClosedN(adj, v) - rest)
        decreases rest
      {
        HasElement(rest);
        var u :| u in rest;
        dominated := dominated + {u};
        notDominated := notDominated - {u};
        rest := rest - {u};
      }
      InsertState(adj, old(dominating), old(dominated), old(notDominated), v);
    }

    /** `test_dominated(v)`: some closed neighbour of v dominates. */
    method TestDominated(v: int) returns (r: bool)
      requires Symmetric(adj) && v in adj
      ensures r <==> ClosedN(adj, v) * dominating != {}
    {
      var rest := ClosedN(adj, v);
      while rest != {}
        invariant rest <= ClosedN(adj, v)
        invariant (ClosedN(adj, v) - rest) * dominating == {}
        decreases rest
      {
        HasElement(rest);
        var u :| u in rest;
        if u in dominating {
          assert u in ClosedN(adj, v) * dominating;
          return true;
        }
        rest := rest - {u};
      }
      return false;
    }

    /**
     * `erase_dominating(v)`: false, changing nothing, when v does not
     * dominate; otherwise v stops dominating and the vertices left with no
     * dominating closed neighbour stop being dominated.
     */
    method EraseDominating(v: int) returns (r: bool)
      requires Valid() && v in adj
      modifies this`dominating, this`notDominating, this`dominated, this`notDominated
      ensures Valid()
      ensures r <==> v in old(dominating)
      ensures dominating == old(dominating) - {v}
      ensures dominated == old(dominated) - Orphans(adj, dominating, v)
      ensures !r ==> dominated == old(dominated) && notDominated == old(notDominated)
    {
      if v !in dominating {
        forall u | u in Orphans(adj, dominating, v)
          ensures u !in dominated
        {
        }
        return false;
      }
      dominating := dominating - {v};
      notDominating := notDominating + {v};
      DropOrphans(v);
      EraseState(adj, old(dominating), old(dominated), old(notDominated), v);
      return true;
    }

    /** The loop of `erase_dominating(v)`: each closed neighbour of v left without a dominating closed neighbour stops being dominated. */
    method DropOrphans(v: int)
      requires Symmetric(adj) && v in adj
      modifies this`dominated, this`notDominated
      ensures dominated == old(dominated) - Orphans(adj, dominating, v)
      ensures notDominated == old(notDominated) + Orphans(adj, dominating, v)
    {
      var closed := ClosedN(adj, v);
      var rest := closed;
      while rest != {}
        invariant rest <= closed
        invariant dominated == old(dominated) - (Orphans(adj, dominating, v) - rest)
        invariant notDominated == old(notDominated) + (Orphans(adj, dominating, v) - rest)
        decreases rest
      {
        HasElement(rest);
        var u :| u in rest;
        var t := TestDominated(u);
        if !t {
          dominated := dominated - {u};
          notDominated := notDominated + {u};
        }
        rest := rest - {u};
      }
    }

    /** `count_domination(v)`: how many vertices inserting v would newly dominate. */
    method CountDomination(v: int) returns (r: int)
      requires Symmetric(adj) && v in adj
      ensures r == Gain(adj, dominated, v)
      ensures 0 <= r <= |adj[v]| + 1
    {
      var closed := ClosedN(adj, v);
      var rest := closed;
      r := 0;
      while rest != {}
        invariant rest <= closed
        invariant r == |closed - rest - dominated|
        decreases rest
      {
        HasElement(rest);
        var u :| u in rest;
        CountStep(closed, rest, dominated, u);
        if u !in dominated {
          r := r + 1;
        }
        rest := rest - {u};
      }
      assert closed - {} - dominated == closed - dominated;
      SubsetCard(closed - dominated, closed);
      UnionCard(adj[v], {v});
    }

    /**
     * `choose_vertex()`: pops entries, dropping dominating vertices and
     * re-pushing stale values, until it holds the vertices whose fresh gain
     * equals the top value; it returns one of them at random and re-pushes
     * the others. The result is a non-dominating vertex of largest gain,
     * and that gain is positive.
     */
    method ChooseVertex() returns (ret: int)
      requires Valid() && QueueBounds() && notDominated != {}
      requires notDominating <= QueueVertices(heap)
      modifies this`heap
      ensures QueueBounds()
      ensures ret in notDominating
      ensures forall w :: w in notDominating ==> Gain(adj, dominated, w) <= Gain(adj, dominated, ret)
      ensures Gain(adj, dominated, ret) > 0
      ensures notDominating - {ret} <= QueueVertices(heap)
    {
      HasElement(notDominated);
      ghost var u :| u in notDominated;
      UndominatedGain(adj, dominating, u);
      assert u in notDominating;
      var best, bestValue := PopBest();
      BestIsLargest(adj, heap, dominating, dominated, notDominating, best, bestValue, u);
      ret := Tools.RandomElement(best);
      RequeueOthers(best, ret, bestValue);
    }

    /**
     * The loop of `choose_vertex()` that pops the queue: afterwards every
     * non-dominating vertex is either in `best`, with fresh gain `bestValue`,
     * or still queued, and no queued value exceeds `bestValue` once `best`
     * holds a vertex.
     */
    method PopBest() returns (best: seq<int>, bestValue: int)
      requires Valid() && QueueBounds()
      requires notDominating <= QueueVertices(heap)
      modifies this`heap
      ensures QueueBounds() && bestValue >= 0
      ensures forall w :: w in notDominating ==> w in best || w in QueueVertices(heap)
      ensures forall w :: w in best ==> w in notDominating && Gain(adj, dominated, w) == bestValue
      ensures best != [] ==> AtMost(heap, bestValue)
      ensures best == [] ==> heap == []
    {
      best, bestValue := [], 0;
      while heap != [] && (best == [] || heap[TopIndex(heap)].0 == bestValue)
        invariant QueueBounds()
        invariant forall w :: w in notDominating ==> w in best || w in QueueVertices(heap)
        invariant forall w :: w in best ==> w in notDominating && Gain(adj, dominated, w) == bestValue
        invariant best != [] ==> AtMost(heap, bestValue)
        invariant bestValue >= 0
        decreases Weight(heap)
      {
        best, bestValue := PopOnce(best, bestValue);
      }
    }

    /** One round of the loop of `choose_vertex()`: pops the top entry and keeps, drops or requeues its vertex. */
    method PopOnce(best: seq<int>, bestValue: int) returns (best': seq<int>, bestValue': int)
      requires Symmetric(adj) && notDominating == adj.Keys - dominating
      requires QueueBounds() && heap != [] && bestValue >= 0
      requires best == [] || heap[TopIndex(heap)].0 == bestValue
      requires forall w :: w in notDominating ==> w in best || w in QueueVertices(heap)
      requires forall w :: w in best ==> w in notDominating && Gain(adj, dominated, w) == bestValue
      requires best != [] ==> AtMost(heap, bestValue)
      modifies this`heap
      ensures QueueBounds() && bestValue' >= 0
      ensures forall w :: w in notDominating ==> w in best' || w in QueueVertices(heap)
      ensures forall w :: w in best' ==> w in notDominating && Gain(adj, dominated, w) == bestValue'
      ensures best' != [] ==> AtMost(heap, bestValue')
      ensures Weight(heap) < old(Weight(heap))
    {
      best', bestValue' := best, bestValue;
      var i := TopIndex(heap);
      var (oldVal, v) := heap[i];
      ghost var h0 := heap;
      heap := RemoveAt(heap, i);
      WeightRemove(h0, i);
      RemoveAtVertices(h0, i);
      RemoveAtBounds(adj, h0, dominating, dominated, i);
      if best != [] {
        RemoveAtAtMost(h0, i, bestValue);
      } else {
        RemoveTop(h0);
      }
      if v !in dominating {
        var curVal := CountDomination(v);
        if oldVal == curVal {
          best' := best + [v];
          bestValue' := curVal;
        } else {
          Push(heap, (curVal, v));
          PushBounds(adj, heap, dominating, dominated, (curVal, v));
          if best != [] {
            PushAtMost(heap, (curVal, v), bestValue);
          }
          heap := heap + [(curVal, v)];
        }
      }
    }

    /** The loop ending `choose_vertex()`: every vertex of `best` but `ret` goes back into the queue with `value`. */
    method RequeueOthers(best: seq<int>, ret: int, value: int)
      requires QueueBounds() && value >= 0
      requires forall w :: w in best ==> w in adj && (w !in dominating ==> value >= Gain(adj, dominated, w))
      modifies this`heap
      ensures QueueBounds()
      ensures old(QueueVertices(heap)) + (Elems(best) - {ret}) <= QueueVertices(heap)
    {
      ghost var h1 := heap;
      for k := 0 to |best|
        invariant QueueBounds()
        invariant QueueVertices(h1) + (Elems(best[..k]) - {ret}) <= QueueVertices(heap)
      {
        ElemsStep(best, k);
        if best[k] != ret {
          Push(heap, (value, best[k]));
          PushBounds(adj, heap, dominating, dominated, (value, best[k]));
          heap := heap + [(value, best[k])];
        }
      }
      assert best[..|best|] == best;
    }

    /**
     * `solve_greedy()`: queues every non-dominating vertex with its gain,
     * then inserts a vertex of largest gain until every vertex is dominated.
     */
    method SolveGreedy()
      requires Valid() && QueueBounds()
      modifies this
      ensures Valid() && QueueBounds()
      ensures notDominated == {} && IsDominatingSet(adj, dominating)
      ensures old(dominating) <= dominating
    {
      var rest := notDominating;
      while rest != {}
        modifies this`heap
        invariant QueueBounds()
        invariant rest <= notDominating
        invariant notDominating - rest <= QueueVertices(heap)
        decreases rest
      {
        HasElement(rest);
        var v :| v in rest;
        var c := CountDomination(v);
        Push(heap, (c, v));
        PushBounds(adj, heap, dominating, dominated, (c, v));
        heap := heap + [(c, v)];
        rest := rest - {v};
      }
      while notDominated != {}
        invariant Valid() && QueueBounds()
        invariant notDominating <= QueueVertices(heap)
        invariant old(dominating) <= dominating
        decreases |notDominated|
      {
        var v := ChooseVertex();
        ghost var dom, dd, h := dominating, dominated, heap;
        InsertDominating(v);
        BoundsShrink(adj, h, dom, dd, dominating, dominated);
        PositiveGainProgress(adj, dd, v);
      }
      NothingLeft(adj, dominating, dominated);
    }

    /**
     * `would_dominate_all(dom)`: the closed neighbourhoods of dom cover every
     * undominated vertex, that is, inserting dom would complete the
     * domination (see `CompletesDomination`).
     */
    method WouldDominateAll(dom: seq<int>) returns (r: bool)
      requires forall w :: w in dom ==> w in adj
      ensures r <==> Covers(adj, notDominated, dom)
    {
      var neighbors: set<int> := {};
      for k := 0 to |dom|
        invariant neighbors == Neighbourhood(adj, Elems(dom[..k]))
      {
        NeighbourhoodStep(adj, Elems(dom[..k]), dom[k]);
        assert Elems(dom[..k + 1]) == Elems(dom[..k]) + {dom[k]};
        neighbors := neighbors + ClosedN(adj, dom[k]);
      }
      assert dom[..|dom|] == dom;
      var rest := notDominated;
      while rest != {}
        invariant rest <= notDominated
        invariant notDominated - rest <= neighbors
        decreases rest
      {
        HasElement(rest);
        var v :| v in rest;
        if v !in neighbors {
          return false;
        }
        rest := rest - {v};
      }
      return true;
    }

    /**
     * `solve_exact(removed)`: tries the combinations of candidates (closed
     * neighbours of undominated vertices) by increasing size, each size in a
     * random order, and inserts the first that completes the domination. The
     * caller knows a completing set, `removed`, so the search succeeds with
     * at most |removed| insertions; no smaller completing set exists.
     */
    method SolveExact(removed: set<int>)
      requires Valid() && Completes(adj, dominating, removed)
      modifies this`dominating, this`notDominating, this`dominated, this`notDominated
      ensures Valid() && notDominated == {}
      ensures old(dominating) <= dominating
      ensures forall c :: Completes(adj, old(dominating), c) ==> |dominating - old(dominating)| <= |c|
      ensures |dominating| <= |old(dominating)| + |removed|
    {
      var candidates := Candidates();
      var found, chosen, size := FindCover(candidates, |removed|);
      if !found {
        assert false;
      }
      DistinctCard(chosen);
      InsertAll(chosen);
      ExactOutcome(adj, old(dominating), old(dominated), Elems(chosen), dominating, dominated, size, removed);
    }

    /** The first loop of `solve_exact`: the closed neighbours of the undominated vertices. */
    method Candidates() returns (candidates: set<int>)
      requires Valid()
      ensures candidates == Neighbourhood(adj, notDominated)
    {
      candidates := {};
      var rest := notDominated;
      assert Neighbourhood(adj, {}) == {};
      while rest != {}
        invariant rest <= notDominated
        invariant candidates == Neighbourhood(adj, notDominated - rest)
        decreases rest
      {
        HasElement(rest);
        var v :| v in rest;
        NeighbourhoodStep(adj, notDominated - rest, v);
        assert notDominated - (rest - {v}) == (notDominated - rest) + {v};
        candidates := candidates + ClosedN(adj, v);
        rest := rest - {v};
      }
      assert notDominated - rest == notDominated;
    }

    /**
     * The search of `solve_exact`: for each size up to `limit`, the
     * combinations of that many candidates in a random order, until one
     * covers the undominated vertices. It reports the first cover found;
     * no set of fewer vertices completes the domination. When it finds none,
     * no set of at most `limit` vertices completes it.
     */
    method FindCover(candidates: set<int>, limit: nat) returns (found: bool, chosen: seq<int>, ghost size: nat)
      requires Valid() && candidates == Neighbourhood(adj, notDominated)
      ensures found ==> size <= limit && Tools.IsCombination(candidates, size, chosen) && Covers(adj, notDominated, chosen)
      ensures found ==> forall w :: w in chosen ==> w in adj
      ensures found ==> forall c :: Completes(adj, dominating, c) ==> size <= |c|
      ensures !found ==> forall c :: Completes(adj, dominating, c) ==> limit < |c|
    {
      NeighbourhoodInGraph(adj, notDominated);
      chosen := [];
      found := false;
      size := 0;
      for sz := 0 to limit + 1
        invariant !found
        invariant forall j :: 0 <= j < sz ==> NoneCompletes(adj, notDominated, candidates, j)
      {
        var sorted := Tools.Combinations(candidates, sz);
        var comb := Tools.Shuffle(sorted);
        for t := 0 to |comb|
          invariant forall j :: 0 <= j < t ==> !Covers(adj, notDominated, comb[j])
        {
          var dom := comb[t];
          assert dom in multiset(sorted);
          assert dom in sorted;
          assert Tools.IsCombination(candidates, sz, dom);
          assert forall w :: w in dom ==> w in candidates;
          var w := WouldDominateAll(dom);
          if w {
            ExactBound(adj, dominating, notDominated, candidates, sz);
            return true, dom, sz;
          }
        }
        forall c | Tools.IsCombination(candidates, sz, c)
          ensures !Covers(adj, notDominated, c)
        {
          assert c in sorted;
          assert c in multiset(comb);
          var j := IndexOf(comb, c);
        }
      }
      ExactBound(adj, dominating, notDominated, candidates, limit + 1);
    }

    /**
     * `improve()`: erases the dominating vertices among the closed
     * neighbours of a random vertex, stopping once four are erased, and lets
     * `solve_exact` refill the gap. The dominating set stays a dominating set
     * and never grows; the result says whether it shrank.
     */
    method Improve() returns (r: bool)
      requires Valid() && ListsVertices() && notDominated == {} && |vertices| > 0
      modifies this`dominating, this`notDominating, this`dominated, this`notDominated
      ensures Valid() && notDominated == {}
      ensures |dominating| <= |old(dominating)|
      ensures r <==> |dominating| < |old(dominating)|
    {
      var previous := |dominating|;
      ghost var start, covered := dominating, dominated;
      var v := Tools.RandomElement(vertices);
      var removed := EraseAround(v);
      ErasedCompletes(adj, start, covered, removed);
      SolveExact(removed);
      r := |dominating| < previous;
    }

    /** The loop of `improve()`: erases up to four dominating closed neighbours of `v`. */
    method EraseAround(v: int) returns (removed: set<int>)
      requires Valid() && v in adj
      modifies this`dominating, this`notDominating, this`dominated, this`notDominated
      ensures Valid()
      ensures removed <= old(dominating) * ClosedN(adj, v) && |removed| <= 4
      ensures dominating == old(dominating) - removed
    {
      var count := 0;
      removed := {};
      var rest := ClosedN(adj, v);
      while rest != {}
        invariant Valid()
        invariant rest <= ClosedN(adj, v) && removed <= ClosedN(adj, v) - rest
        invariant removed <= old(dominating) && dominating == old(dominating) - removed
        invariant count == |removed| <= 3
        decreases rest
      {
        HasElement(rest);
        var u :| u in rest;
        assert u !in removed;
        var erased := EraseDominating(u);
        if erased {
          count := count + 1;
          assert |removed + {u}| == |removed| + 1;
          removed := removed + {u};
        }
        if count > 3 {
          break;
        }
        rest := rest - {u};
      }
    }

    /** The loop of `solve_exact` that inserts every vertex of the chosen combination. */
    method InsertAll(dom: seq<int>)
      requires Valid() && forall w :: w in dom ==> w in adj
      modifies this`dominating, this`notDominating, this`dominated, this`notDominated
      ensures Valid()
      ensures dominating == old(dominating) + Elems(dom)
      ensures dominated == old(dominated) + Neighbourhood(adj, Elems(dom))
    {
      assert Neighbourhood(adj, {}) == {};
      for i := 0 to |dom|
        invariant Valid()
        invariant dominating == old(dominating) + Elems(dom[..i])
        invariant dominated == old(dominated) + Neighbourhood(adj, Elems(dom[..i]))
      {
        NeighbourhoodStep(adj, Elems(dom[..i]), dom[i]);
        ElemsStep(dom, i);
        InsertDominating(dom[i]);
      }
      assert dom[..|dom|] == dom;
    }
  }
}
