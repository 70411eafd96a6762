/**
 * Greedy vertex colouring of TP0/main.cpp: vertices are taken one at a time
 * as a vertex of maximum degree in a shrinking copy `todo` of the graph, and
 * each receives the least colour not used by its already coloured
 * neighbours. `testColor` checks a colouring.
 */
module Coloring {
  import opened Collections
  import opened Graphs

  /** c is the least non-negative integer missing from s. */
  ghost predicate IsMex(c: int, s: set<int>)
  {
    c >= 0 && c !in s && forall k :: 0 <= k < c ==> k in s
  }

  /** `firstAvailableColor`: counts up from 0 to the first colour not in the set. */
  method FirstAvailableColor(colorSet: set<int>) returns (c: int)
    ensures IsMex(c, colorSet)
    ensures c <= |colorSet|
  {
    c := 0;
    while c in colorSet
      invariant c >= 0 && forall k :: 0 <= k < c ==> k in colorSet
      decreases |colorSet| - c
    {
      PrefixSubsetCard(colorSet, c + 1);
      c := c + 1;
    }
    PrefixSubsetCard(colorSet, c);
  }

  /** The graph left once the vertices in `removed` are deleted, as `removeVertex` does. */
  ghost function Without(adj: Adjacency, removed: set<int>): Adjacency
  {
    map a | a in adj && a !in removed :: adj[a] - removed
  }

  /** v has the largest degree in adj. */
  ghost predicate IsMaxDegree(adj: Adjacency, v: int)
  {
    v in adj && forall w :: w in adj ==> |adj[w]| <= |adj[v]|
  }

  /** The colours of v's neighbours that lie in `done`. */
  ghost function NeighbourColors(adj: Adjacency, color: map<int, int>, v: int, done: set<int>): set<int>
    requires v in adj
  {
    set u | u in adj[v] && u in done && u in color :: color[u]
  }

  ghost function Before(order: seq<int>, k: int): set<int>
    requires 0 <= k <= |order|
  {
    set u | u in order[..k]
  }

  /**
   * The k-th greedy choice: order[k] has maximum degree among the vertices
   * not yet coloured, and its colour is the least one missing among its
   * earlier neighbours, so at most their number.
   */
  ghost predicate GreedyChoice(adj: Adjacency, color: map<int, int>, order: seq<int>, k: int)
  {
    0 <= k < |order| && order[k] in adj && order[k] in color &&
    IsMaxDegree(Without(adj, Before(order, k)), order[k]) &&
    IsMex(color[order[k]], NeighbourColors(adj, color, order[k], Before(order, k))) &&
    color[order[k]] <= |adj[order[k]] * Before(order, k)|
  }

  /** No edge joins two vertices of the same colour. */
  ghost predicate Proper(adj: Adjacency, color: map<int, int>)
  {
    forall a, b :: Adjacent(adj, a, b) && a in color && b in color ==> color[a] != color[b]
  }

  /** Giving each vertex, in some order, the least colour missing among its earlier neighbours yields a proper colouring. */
  lemma {:induction false} LeastMissingIsProper(adj: Adjacency, color: map<int, int>, order: seq<int>)
    requires Symmetric(adj) && Distinct(order)
    requires forall a :: a in color ==> a in order
    requires forall k :: 0 <= k < |order| ==> GreedyChoice(adj, color, order, k)
    ensures Proper(adj, color)
  {
    forall a, b | Adjacent(adj, a, b) && a in color && b in color
      ensures color[a] != color[b]
    {
      var x, y := IndexOf(order, a), IndexOf(order, b);
      assert GreedyChoice(adj, color, order, x) && GreedyChoice(adj, color, order, y);
      if x < y {
        assert a in order[..y];
        assert color[a] in NeighbourColors(adj, color, b, Before(order, y));
      } else {
        assert x != y;
        assert b in order[..x];
        assert color[b] in NeighbourColors(adj, color, a, Before(order, x));
      }
    }
  }

  /** Each greedy colour is at most the degree of its vertex. */
  lemma GreedyColorAtMostDegree(adj: Adjacency, color: map<int, int>, order: seq<int>, k: int)
    requires GreedyChoice(adj, color, order, k)
    ensures 0 <= color[order[k]] <= |adj[order[k]]|
  {
    var v := order[k];
    assert adj[v] * Before(order, k) <= adj[v];
    SubsetCard(adj[v] * Before(order, k), adj[v]);
  }

  /** Deleting one more vertex from the remaining graph, as `removeVertex` does. */
  lemma WithoutStep(adj: Adjacency, removed: set<int>, v: int, t: Adjacency)
    requires t.Keys == Without(adj, removed).Keys - {v}
    requires forall a, b :: Adjacent(t, a, b) <==> Adjacent(Without(adj, removed), a, b) && a != v && b != v
    ensures t == Without(adj, removed + {v})
  {
    var w := Without(adj, removed + {v});
    forall a | a in t
      ensures t[a] == w[a]
    {
      forall b
        ensures b in t[a] <==> b in w[a]
      {
        assert Adjacent(t, a, b) <==> Adjacent(Without(adj, removed), a, b) && a != v && b != v;
      }
    }
  }

  /**
   * Colouring v, a vertex of largest degree among those left, with the least
   * colour missing among its coloured neighbours adds one greedy choice and
   * keeps the earlier ones.
   */
  lemma GreedyStep(adj: Adjacency, color: map<int, int>, order: seq<int>, v: int, c: int,
                   color': map<int, int>, order': seq<int>)
    requires v in adj && v !in color && color.Keys == set u | u in order
    requires IsMaxDegree(Without(adj, color.Keys), v)
    requires IsMex(c, NeighbourColors(adj, color, v, color.Keys)) && c <= |adj[v] * color.Keys|
    requires color' == color[v := c] && order' == order + [v]
    requires forall k :: 0 <= k < |order| ==> GreedyChoice(adj, color, order, k)
    ensures forall k :: 0 <= k < |order'| ==> GreedyChoice(adj, color', order', k)
  {
    forall k | 0 <= k < |order'|
      ensures GreedyChoice(adj, color', order', k)
    {
      if k < |order| {
        GreedyChoiceKept(adj, color, order, v, c, k);
      } else {
        GreedyChoiceNew(adj, color, order, v, c);
      }
    }
  }

  /** Colouring a new vertex last leaves an earlier greedy choice a greedy choice. */
  lemma GreedyChoiceKept(adj: Adjacency, color: map<int, int>, order: seq<int>, v: int, c: int, k: int)
    requires v !in color && color.Keys == set u | u in order && 0 <= k < |order|
    requires GreedyChoice(adj, color, order, k)
    ensures GreedyChoice(adj, color[v := c], order + [v], k)
  {
    var order', color' := order + [v], color[v := c];
    assert order'[..k] == order[..k];
    assert Before(order', k) == Before(order, k);
    assert order[k] in order;
    assert NeighbourColors(adj, color', order[k], Before(order, k)) ==
      NeighbourColors(adj, color, order[k], Before(order, k));
  }

  /** The vertex coloured last is itself a greedy choice. */
  lemma GreedyChoiceNew(adj: Adjacency, color: map<int, int>, order: seq<int>, v: int, c: int)
    requires v in adj && v !in color && color.Keys == set u | u in order
    requires IsMaxDegree(Without(adj, color.Keys), v)
    requires IsMex(c, NeighbourColors(adj, color, v, color.Keys)) && c <= |adj[v] * color.Keys|
    ensures GreedyChoice(adj, color[v := c], order + [v], |order|)
  {
    var order', color' := order + [v], color[v := c];
    assert order'[..|order|] == order;
    forall u
      ensures u in Before(order', |order|) <==> u in color
    {
    }
    assert Before(order', |order|) == color.Keys;
    assert NeighbourColors(adj, color', v, color.Keys) == NeighbourColors(adj, color, v, color.Keys);
  }

  /** One more neighbour looked at adds its colour, if it has one. */
  lemma NeighbourColorsStep(adj: Adjacency, color: map<int, int>, v: int, seen: set<int>, u: int)
    requires v in adj && u in adj[v]
    ensures u in color ==> NeighbourColors(adj, color, v, seen + {u}) == NeighbourColors(adj, color, v, seen) + {color[u]}
    ensures u !in color ==> NeighbourColors(adj, color, v, seen + {u}) == NeighbourColors(adj, color, v, seen)
  {
  }

  /** There are no more neighbour colours than coloured neighbours. */
  lemma NeighbourColorsCard(adj: Adjacency, color: map<int, int>, v: int)
    requires v in adj
    ensures |NeighbourColors(adj, color, v, color.Keys)| <= |adj[v] * color.Keys|
  {
    var colorOf := (u: int) => if u in color then color[u] else 0;
    forall c | c in NeighbourColors(adj, color, v, color.Keys)
      ensures exists u :: u in adj[v] * color.Keys && colorOf(u) == c
    {
      var u :| u in adj[v] && u in color && color[u] == c;
      assert colorOf(u) == c;
    }
    CoveredByImageCard(adj[v] * color.Keys, NeighbourColors(adj, color, v, color.Keys), colorOf);
  }

  /** The loop of `greedyColor` collecting the colours of v's coloured neighbours. */
  method CollectNeighbourColors(g: Graph, color: map<int, int>, v: int) returns (neighborColors: set<int>)
    requires v in g.adj
    ensures neighborColors == NeighbourColors(g.adj, color, v, color.Keys)
  {
    neighborColors := {};
    var neigh := g.Neighbors(v);
    var rest := neigh;
    ghost var seen: set<int> := {};
    assert NeighbourColors(g.adj, color, v, seen) == {};
    while rest != {}
      invariant rest <= neigh && seen == neigh - rest
      invariant neighborColors == NeighbourColors(g.adj, color, v, seen)
      decreases rest
    {
      HasElement(rest);
      var u :| u in rest;
      NeighbourColorsStep(g.adj, color, v, seen, u);
      if u in color {
        neighborColors := neighborColors + {color[u]};
      }
      rest := rest - {u};
      seen := seen + {u};
    }
    assert NeighbourColors(g.adj, color, v, seen) == NeighbourColors(g.adj, color, v, color.Keys);
  }

  /** Recording the newly coloured vertex in the ghost order. */
  lemma OrderStep(order: seq<int>, color: map<int, int>, v: int, c: int)
    requires color.Keys == set u | u in order
    ensures color[v := c].Keys == set u | u in order + [v]
  {
    assert color[v := c].Keys == color.Keys + {v};
    assert (set u | u in order + [v]) == (set u | u in order) + {v};
  }

  /** Each greedy choice is a vertex not chosen before, so no vertex is coloured twice. */
  lemma ChoicesAreDistinct(adj: Adjacency, color: map<int, int>, order: seq<int>)
    requires forall k :: 0 <= k < |order| ==> GreedyChoice(adj, color, order, k)
    ensures Distinct(order)
  {
    forall i, j | 0 <= i < j < |order|
      ensures order[i] != order[j]
    {
      assert GreedyChoice(adj, color, order, j);
      assert order[i] in Before(order, j);
    }
  }

  /** Deleting vertices keeps the adjacency symmetric and loop-free. */
  lemma WithoutSymmetric(adj: Adjacency, removed: set<int>)
    requires Symmetric(adj)
    ensures Symmetric(Without(adj, removed))
  {
  }

  /** The set of coloured vertices grows by the vertex just coloured. */
  lemma ColoredStep(adj: Adjacency, color: map<int, int>, removed: set<int>, v: int, c: int)
    requires removed == color.Keys && removed <= adj.Keys && v in adj
    ensures removed + {v} == color[v := c].Keys && removed + {v} <= adj.Keys
  {
  }

  /** Deleting nothing leaves the graph as it is. */
  lemma WithoutNothing(adj: Adjacency)
    ensures Without(adj, {}) == adj
  {
    forall a | a in adj
      ensures Without(adj, {})[a] == adj[a]
    {
      assert adj[a] - {} == adj[a];
    }
  }

  /** m is the largest colour used, or -1 when nothing is coloured. */
  ghost predicate MaxColorOf(color: map<int, int>, m: int)
  {
    (m == -1 <==> color == map[]) &&
    (forall v :: v in color ==> color[v] <= m) &&
    (color != map[] ==> exists v :: v in color && color[v] == m)
  }

  /** Updating `maxColor` after colouring one more vertex. */
  lemma MaxColorStep(color: map<int, int>, m: int, v: int, c: int)
    requires MaxColorOf(color, m) && v !in color && c >= 0
    ensures MaxColorOf(color[v := c], if m < c then c else m)
  {
    var m' := if m < c then c else m;
    var color' := color[v := c];
    if m < c {
      assert color'[v] == m';
    } else {
      var u :| u in color && color[u] == m;
      assert u in color' && color'[u] == m';
    }
  }

  /**
   * The first half of a round of `greedyColor`: take a vertex of largest
   * degree in `todo`, the graph left once the coloured vertices are deleted,
   * and delete it there too.
   */
  method TakeMaxDegreeVertex(g: Graph, todo: Graph, ghost colored: set<int>) returns (v: int)
    requires g.Valid() && todo != g && todo.adj != map[]
    requires todo.adj == Without(g.adj, colored)
    modifies todo
    ensures v in g.adj && v !in colored
    ensures IsMaxDegree(Without(g.adj, colored), v)
    ensures todo.adj == Without(g.adj, colored + {v})
    ensures |todo.adj.Keys| < old(|todo.adj.Keys|)
  {
    WithoutSymmetric(g.adj, colored);
    var pick := todo.MaxDegreeVertex();
    v := pick.value;
    todo.RemoveVertex(v);
    assert old(todo.adj.Keys) == todo.adj.Keys + {v};
    WithoutStep(g.adj, colored, v, todo.adj);
  }

  /** The second half: the least colour missing among v's coloured neighbours. */
  method ChooseColor(g: Graph, color: map<int, int>, v: int) returns (c: int)
    requires v in g.adj
    ensures IsMex(c, NeighbourColors(g.adj, color, v, color.Keys))
    ensures c <= |g.adj[v] * color.Keys|
  {
    var neighborColors := CollectNeighbourColors(g, color, v);
    NeighbourColorsCard(g.adj, color, v);
    c := FirstAvailableColor(neighborColors);
  }

  /**
   * `greedyColor`: colours every vertex of g; returns the colouring and
   * `maxColor`, the largest colour used or -1 for an empty graph (the
   * source prints `maxColor + 1` as the number of colours). The ghost
   * `order` is the order in which the vertices were coloured.
   */
  method GreedyColor(g: Graph) returns (color: map<int, int>, maxColor: int, ghost order: seq<int>)
    requires g.Valid()
    ensures color.Keys == g.adj.Keys
    ensures Proper(g.adj, color)
    ensures forall v :: v in color ==> 0 <= color[v] <= |g.adj[v]|
    ensures Distinct(order) && |order| == |g.adj| && forall v :: v in order <==> v in g.adj
    ensures forall k :: 0 <= k < |order| ==> GreedyChoice(g.adj, color, order, k)
    ensures MaxColorOf(color, maxColor)
  {
    maxColor := -1;
    color := map[];
    order := [];
    var todo := new Graph.Copy(g);
    WithoutNothing(g.adj);
    ghost var removed: set<int> := {};
    while todo.CountVertices() > 0
      invariant fresh(todo)
      invariant todo.adj == Without(g.adj, removed)
      invariant removed == color.Keys && removed <= g.adj.Keys
      invariant color.Keys == set u | u in order
      invariant forall k :: 0 <= k < |order| ==> GreedyChoice(g.adj, color, order, k)
      invariant MaxColorOf(color, maxColor)
      decreases |todo.adj.Keys|
    {
      var v := TakeMaxDegreeVertex(g, todo, removed);
      var c := ChooseColor(g, color, v);
      GreedyStep(g.adj, color, order, v, c, color[v := c], order + [v]);
      OrderStep(order, color, v, c);
      MaxColorStep(color, maxColor, v, c);
      ColoredStep(g.adj, color, removed, v, c);
      order := order + [v];
      color := color[v := c];
      removed := removed + {v};
      if maxColor < c {
        maxColor := c;
      }
    }
    assert color.Keys == g.adj.Keys by {
      assert Without(g.adj, color.Keys).Keys == {};
    }
    GreedyColoringDone(g.adj, color, order);
  }

  /** Once every vertex has been chosen, the greedy colouring is proper and within the degrees. */
  lemma GreedyColoringDone(adj: Adjacency, color: map<int, int>, order: seq<int>)
    requires Symmetric(adj) && color.Keys == adj.Keys
    requires color.Keys == set u | u in order
    requires forall k :: 0 <= k < |order| ==> GreedyChoice(adj, color, order, k)
    ensures Proper(adj, color)
    ensures forall v :: v in color ==> 0 <= color[v] <= |adj[v]|
    ensures Distinct(order) && |order| == |adj|
  {
    ChoicesAreDistinct(adj, color, order);
    LeastMissingIsProper(adj, color, order);
    DistinctCard(order);
    assert (set v | v in order) == adj.Keys;
    forall v | v in color
      ensures 0 <= color[v] <= |adj[v]|
    {
      GreedyColorAtMostDegree(adj, color, order, IndexOf(order, v));
    }
  }

  /**
   * `testColor`: fails on the first uncoloured vertex, then on the first
   * edge (from TP0's `edges`) whose ends share a colour. It passes exactly
   * when every vertex is coloured and the colouring is proper.
   */
  method TestColor(g: Graph, color: map<int, int>) returns (ok: bool)
    requires g.Valid()
    ensures ok <==> g.adj.Keys <= color.Keys && Proper(g.adj, color)
  {
    var vs := g.Vertices();
    var rest := vs;
    while rest != {}
      invariant rest <= vs && forall v :: v in vs - rest ==> v in color
      decreases rest
    {
      HasElement(rest);
      var v :| v in rest;
      if v !in color {
        return false;
      }
      rest := rest - {v};
    }
    forall v | v in g.adj
      ensures v in color
    {
      assert v in vs - rest;
    }
    var es := g.OrderedEdges();
    for k := 0 to |es|
      invariant g.adj.Keys <= color.Keys
      invariant forall m :: 0 <= m < k ==> color[es[m].0] != color[es[m].1]
    {
      var (u, v) := es[k];
      ArcMember(g.adj, es[k]);
      assert Adjacent(g.adj, u, v);
      if color[u] == color[v] {
        return false;
      }
    }
    forall a, b | Adjacent(g.adj, a, b) && a in color && b in color
      ensures color[a] != color[b]
    {
      ArcMember(g.adj, (a, b));
      ArcMember(g.adj, (b, a));
      if a < b {
        var m := IndexOf(es, (a, b));
      } else {
        var m := IndexOf(es, (b, a));
      }
    }
    ok := true;
  }
}
