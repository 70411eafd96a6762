# Graph optimisation heuristics, modelled in Dafny

This project models the core of a collection of combinatorial optimisation
exercises on graphs and point sets. It proves the properties that the code and
its comments promise.

- **Disk packing** (TP1/public_cpp/main.cpp, TP1/public_py/main.py). Disks of a
  given radius sit on candidate points. The greedy visits the points in order of
  their projection onto a direction. It keeps a point unless an already kept
  point lies within twice the radius, and it finds the neighbours through a grid
  of cells of side 2·radius. `manyRuns` repeats the greedy over several
  directions and keeps the first largest result. The model proves four things:
  - each run is a maximal packing: kept points pairwise farther apart than
    2·radius, every candidate within 2·radius of a kept one;
  - the 3×3 grid lookup finds every neighbour, with the floor cells of C++ and
    the truncated cells of Python;
  - the grid-based sweep equals a reference definition that scans every kept
    point;
  - `manyRuns` returns the first run of the largest size.
- **The graph class** (TP4/ind/Graph.hpp, and its copy TP0/graph.hpp). It is an
  adjacency map from vertices to neighbour sets, updated in place. Every
  mutator keeps the map symmetric and loop-free. `countEdges` is exact (the
  handshake lemma). `edges` lists each edge in exactly one orientation. `bfs`
  returns distinct reachable vertices, and all reachable ones when no bound
  stops it.
- **Greedy colouring** (TP0/main.cpp). It repeatedly takes a vertex of maximum
  degree in the shrinking remaining graph and gives it the least colour its
  coloured neighbours lack. The model proves the colouring proper and each
  colour at most the vertex's degree. It proves `testColor` accepts exactly the
  complete proper colourings.
- **Segment crossing and the conflict graph** (TP1/files.hpp). The model
  covers:
  - point order and arithmetic;
  - the box test `inside`;
  - the orientation sign;
  - `cross`, and the graph with one vertex per segment and an edge per
    crossing pair.

  One case of `cross` is wrong (see Findings). The model keeps it as written
  and exhibits the error. `readGraph` is modelled as written, with that test.
  The same graph built with the corrected test is modelled beside it.
- **The dominating-set solver** (TP3/dom/solver.hpp). It keeps four sets in
  step:
  - dominating and not dominating vertices;
  - dominated and not dominated vertices.

  The greedy uses a lazily updated priority queue. `improve` erases up to four
  dominating vertices around a random vertex, then refills them with an
  exhaustive search. The model proves several things:
  - every operation keeps the four sets consistent;
  - `choose_vertex` returns a vertex of largest positive gain;
  - `solve_greedy` ends with a dominating set;
  - `solve_exact` inserts a smallest completing set;
  - `improve` never enlarges the dominating set.
- **Combinations and random choice** (TP3/ind/tools.hpp). `combinations(s, k)`
  lists every k-element subset of s exactly once, as an increasing vector.
- **The independent-set solver** (TP2/Solver.hpp). It keeps an independent set
  and, for each vertex, the number of set members in its closed neighbourhood.
  The model proves that every operation keeps those counts exact. It proves
  that `solve_greedy` and `improve` end with a maximal independent set, and
  that `improve` loses at most one member.
- **The solution checkers** (TP2/testind.py, TP4/dom/testdom.py). `buildGraph`
  builds the symmetric adjacency of the edge list. `testInd` and `testDom`
  report nothing exactly when the proposed set is independent, respectively
  dominating, in the same sense the solvers use.

Vertices are integers everywhere. Randomness is a nondeterministic choice. The
iteration order of a hash set or map is an order the model leaves open.

## Model

| member | source | states |
|---|---|---|
| `DiskPacking.Distance2` | TP1/public_cpp/main.cpp:37-40 | the squared distance is non-negative and zero exactly for equal points |
| `DiskPacking.Distance2Symmetric` | TP1/public_cpp/main.cpp:37-40 | the squared distance does not depend on the order of the two points |
| `DiskPacking.KeyOf` | TP1/public_cpp/main.cpp:65-71 | the cell of a point is the one whose half-open square [c·size, c·size + size) holds each coordinate, negative ones included |
| `DiskPacking.FloorKeysAdjacent` | TP1/public_cpp/main.cpp:131-135 | coordinates at most one cell size apart have floor cells at most one apart |
| `DiskPacking.CloseImpliesAdjacentCells` | TP1/public_cpp/main.cpp:131-152 | a point within squared distance 4·radius² of p lies in one of the 3×3 cells around p's cell, so `kill_neighbours` misses no neighbour |
| `DiskPacking.SortIndices` | TP1/public_cpp/main.cpp:101-110 | `indexes` after the sort is a permutation of 0..n-1 ordered non-decreasingly by projection |
| `DiskPacking.GreedyIndices` | TP1/public_cpp/main.cpp:155-167 | the reference selection only selects candidate indices |
| `DiskPacking.PointsOf` | TP1/public_cpp/main.cpp:164 | the solution lists the points of the selected indices, in selection order |
| `DiskPacking.SeparatedExtend` | TP1/public_cpp/main.cpp:161-165 | selecting a point whose flag is still set keeps the selected points pairwise separated |
| `DiskPacking.GreedySelectionsFarApart` | TP1/public_cpp/main.cpp:155-167 | no two selected indices are within squared distance 4·radius² |
| `DiskPacking.CoveredExtend` | TP1/public_cpp/main.cpp:125-153 | selecting i kills exactly the points already killed and those close to i |
| `DiskPacking.GreedyCoversVisited` | TP1/public_cpp/main.cpp:155-167 | every visited index ends killed, and there are no more selections than visited indices |
| `DiskPacking.PermutationHoldsAll` | TP1/public_cpp/main.cpp:101-102 | the `iota` permutation holds every index, so the sweep visits every point |
| `DiskPacking.GreedyIsMaximalPacking` | TP1/public_cpp/main.cpp:155-167 | for any visiting permutation the selection is a maximal packing of at most n distinct indices |
| `DiskPacking.CoveredAll` | TP1/public_cpp/main.cpp:159-166 | once the sweep visits every index, every index is killed |
| `DiskPacking.SeparatedPointsFarApart` | TP1/public_cpp/main.cpp:164 | separated indices give solution points pairwise farther apart than 2·radius |
| `DiskPacking.SeparatedDistinct` | TP1/public_cpp/main.cpp:164 | no index is selected twice |
| `DiskPacking.CoveredBlocks` | TP1/public_cpp/main.cpp:155-167 | when every index is killed, every candidate is within 2·radius of a solution point |
| `DiskPacking.GreedyRunIsMaximalPacking` | TP1/public_cpp/main.cpp:98-168 | each `greedy(dir)` result is a maximal packing of at most n points drawn from the candidates |
| `DiskPacking.GridEntry` | TP1/public_cpp/main.cpp:116-120 | an entry of a bucket is a candidate index whose cell is that bucket's key |
| `DiskPacking.GridInsert` | TP1/public_cpp/main.cpp:118-120 | appending index i to its cell's bucket extends the grid of the indices below i |
| `DiskPacking.BuildGrid` | TP1/public_cpp/main.cpp:113-120 | each index sits in the bucket of its own cell, in no other, and once |
| `DiskPacking.KillInCell` | TP1/public_cpp/main.cpp:138-151 | scanning one cell clears exactly the flags of the points of that cell within 4·radius², and no other flag |
| `DiskPacking.KillNeighbours` | TP1/public_cpp/main.cpp:125-153 | the flags cleared are exactly those of the points within squared distance 4·radius² of ip, ip itself included |
| `DiskPacking.SweepStep` | TP1/public_cpp/main.cpp:159-166 | one more step of the backward sweep adds index order[k] exactly when the later selections do not cover it |
| `DiskPacking.PointsOfSnoc` | TP1/public_cpp/main.cpp:164 | pushing the selected point extends the solution by that point |
| `DiskPacking.Select` | TP1/public_cpp/main.cpp:161-165 | after selecting i and killing its neighbours, the flags are set exactly for the points no selected index covers |
| `DiskPacking.Greedy` | TP1/public_cpp/main.cpp:98-168 | the grid-based `greedy(dir)` returns exactly the reference selection on the sorted order, hence a maximal packing |
| `DiskPacking.Sweep` | TP1/public_cpp/main.cpp:155-167 | the backward sweep with flags and grid yields the points of the reference selection |
| `DiskPacking.Runs` | TP1/public_cpp/main.cpp:176-181 | manyRuns makes one greedy run per direction |
| `DiskPacking.RunsSnoc` | TP1/public_cpp/main.cpp:176-181 | one more direction appends its run |
| `DiskPacking.RunsAreMaximalPackings` | TP1/public_cpp/main.cpp:176-181 | every run of manyRuns is a maximal packing |
| `DiskPacking.ManyRuns` | TP1/public_cpp/main.cpp:170-189 | the result is the first run of the largest size (empty with no direction), and a maximal packing when there is a direction |
| `DiskPacking.KeepStep` | TP1/public_cpp/main.cpp:182-186 | replacing the best only on a strictly larger run keeps the first largest run |
| `DiskPacking.BestIsARun` | TP1/public_cpp/main.cpp:170-189 | over at least one direction the kept result is one of the runs |
| `DiskPackingPy.Trunc` | TP1/public_py/main.py:20 | `int(x / g)` is the quotient rounded toward zero: floor for x ≥ 0, ceiling below |
| `DiskPackingPy.TruncAdjacent` | TP1/public_py/main.py:20 | coordinates at most g apart have truncated cells at most one apart, across zero too |
| `DiskPackingPy.TruncMixedSigns` | TP1/public_py/main.py:20 | across zero, where cell 0 is twice as wide, the truncated cells still differ by at most one |
| `DiskPackingPy.CloseImpliesAdjacentTruncCells` | TP1/public_py/main.py:34-43 | a point within 2·radius of p lies in the 3×3 cells around p's truncated cell |
| `DiskPackingPy.BuildGrid` | TP1/public_py/main.py:16-26 | the bucket of each cell holds exactly the points of that cell, and every point's cell has a bucket |
| `DiskPackingPy.GetNeighbors` | TP1/public_py/main.py:34-43 | the generator yields exactly the points other than p within squared distance 4·radius² |
| `DiskPackingPy.SortByProjection` | TP1/public_py/main.py:49 | `sorted` returns a permutation of the points ordered by increasing projection |
| `DiskPackingPy.Greedy` | TP1/public_py/main.py:46-58 | the grid-based greedy returns the reference solution of the sorted points |
| `DiskPackingPy.GreedyStateStep` | TP1/public_py/main.py:52-56 | visiting one more point adds it to the solution and forbids its neighbours exactly when it is not forbidden |
| `DiskPackingPy.ForbidAll` | TP1/public_py/main.py:55-56 | the inner loop adds every yielded neighbour, and only those, to `forbidden` |
| `DiskPackingPy.GreedyStateInvariant` | TP1/public_py/main.py:52-56 | along the loop the solution is pairwise far apart, forbidden points are near a solution point, and every visited point is kept or forbidden |
| `DiskPackingPy.GreedyStep` | TP1/public_py/main.py:53-56 | adding a point that is not forbidden preserves that invariant |
| `DiskPackingPy.GreedySolIsMaximalPacking` | TP1/public_py/main.py:46-58 | greedy's set is made of input points, pairwise farther apart than 2·radius, and within 2·radius of every input point |
| `DiskPackingPy.InvariantBlocks` | TP1/public_py/main.py:52-58 | once all points are visited the solution blocks every point |
| `DiskPackingPy.SameElements` | TP1/public_py/main.py:49 | sorting keeps the same points |
| `DiskPackingPy.RunsPy` | TP1/public_py/main.py:99-103 | one greedy run per direction |
| `DiskPackingPy.RunsPyStep` | TP1/public_py/main.py:99-103 | one more direction appends its run |
| `DiskPackingPy.KeepStepSet` | TP1/public_py/main.py:104-106 | replacing the best only on a strictly larger run keeps the first largest run |
| `DiskPackingPy.ManyRuns` | TP1/public_py/main.py:92-109 | the result is the first largest run (empty with no direction), and a maximal packing when there is a direction |
| `DiskPackingPy.BestIsARunPy` | TP1/public_py/main.py:92-109 | over at least one direction the kept result is a maximal packing |
| `Sorting.Insert` | TP2/Solver.hpp:46-49 | inserting into a sorted sequence keeps it sorted and adds exactly the new element |
| `Sorting.InsertionSort` | TP1/public_py/main.py:49 | sorting by a key yields a permutation ordered non-decreasingly by the key |
| `Graphs.Handshake` | TP4/ind/Graph.hpp:83-90 | in a symmetric loop-free adjacency the degree sum is twice the number of edges, so the `assert` of countEdges holds |
| `Graphs.Graph.constructor` | TP4/ind/Graph.hpp:36-37 | the empty graph |
| `Graphs.Graph.Copy` | TP0/main.cpp:21-23 | the working copy of the graph has the original's adjacency |
| `Graphs.Graph.AddVertex` | TP4/ind/Graph.hpp:47-49 | v becomes a vertex, with no neighbours unless it was one; nothing else changes |
| `Graphs.Graph.AddEdge` | TP4/ind/Graph.hpp:51-56 | a loop is ignored; otherwise both ends become vertices and exactly the edge u–v is added, both ways |
| `Graphs.Graph.ContainsVertex` | TP4/ind/Graph.hpp:58-60 | true exactly for vertices |
| `Graphs.Graph.ContainsEdge` | TP4/ind/Graph.hpp:62-64 | true exactly when v is a neighbour of u; then u is a neighbour of v and u ≠ v |
| `Graphs.Graph.Degree` | TP4/ind/Graph.hpp:66-68 | -1 exactly for an absent vertex, else the number of neighbours |
| `Graphs.Graph.MaxDegree` | TP4/ind/Graph.hpp:70-77 | the largest degree, attained by some vertex; -1 exactly for the empty graph |
| `Graphs.Graph.MaxDegreeVertex` | TP0/graph.hpp:58-68 | a vertex of largest degree; none (the throw) exactly for the empty graph |
| `Graphs.Graph.CountVertices` | TP4/ind/Graph.hpp:79-81 | the number of vertices |
| `Graphs.Graph.CountEdges` | TP4/ind/Graph.hpp:83-90 | the number of undirected edges, half the degree sum |
| `Graphs.Graph.RemoveEdge` | TP4/ind/Graph.hpp:92-97 | no change unless u–v is an edge; removes exactly both directions of u–v and keeps the vertices |
| `Graphs.Graph.RemoveVertex` | TP4/ind/Graph.hpp:99-107 | removes v and exactly the edges at v; no change for an absent vertex |
| `Graphs.Graph.Clear` | TP4/ind/Graph.hpp:109-111 | no vertex and no edge remain |
| `Graphs.Graph.Vertices` | TP4/ind/Graph.hpp:113-119 | the set of vertices |
| `Graphs.Graph.Neighbors` | TP4/ind/Graph.hpp:137-139 | exactly the vertices adjacent to v |
| `Graphs.Graph.ClosedNeighbors` | TP4/ind/Graph.hpp:142-146 | v and exactly its neighbours |
| `Graphs.Graph.Edges` | TP4/ind/Graph.hpp:121-135 | only edges, every edge, each in exactly one orientation |
| `Graphs.Graph.EdgesFromOrder` | TP4/ind/Graph.hpp:126-133 | the pairs of positions i < j holding adjacent vertices cover each edge once |
| `Graphs.Graph.OrderedEdges` | TP0/graph.hpp:123-133 | each undirected edge exactly once, smaller end first, so as many entries as `countEdges` |
| `Graphs.Graph.Bfs` | TP4/ind/Graph.hpp:148-169 | distinct vertices reachable from v, v first, at most the bound; all reachable vertices unless the bound stopped it |
| `Graphs.BfsStep` | TP4/ind/Graph.hpp:157-166 | one round keeps the visited set equal to the output, everything reachable, and the search closed up to the queue |
| `Graphs.BfsVisit` | TP4/ind/Graph.hpp:162-165 | visiting the head and queueing its neighbours keeps every neighbour of a visited vertex visited or queued |
| `Graphs.BfsBound` | TP4/ind/Graph.hpp:153-157 | `maxv`, the vertex count for 0, and the huge unsigned value of `(size_t) maxv` for negative values |
| `Coloring.FirstAvailableColor` | TP0/main.cpp:8-14 | the least non-negative colour missing from the set, at most the set's size |
| `Coloring.LeastMissingIsProper` | TP0/main.cpp:23-38 | giving each vertex, in turn, the least colour its earlier neighbours lack yields a proper colouring |
| `Coloring.GreedyColorAtMostDegree` | TP0/main.cpp:28-34 | each greedy colour is between 0 and the vertex's degree |
| `Coloring.WithoutStep` | TP0/main.cpp:25-26 | `removeVertex` on the remaining graph leaves the graph minus one more vertex |
| `Coloring.GreedyStep` | TP0/main.cpp:23-38 | colouring a max-degree remaining vertex with the least missing colour keeps every round a greedy choice |
| `Coloring.GreedyChoiceKept` | TP0/main.cpp:23-38 | a new round leaves the earlier greedy choices greedy choices |
| `Coloring.GreedyChoiceNew` | TP0/main.cpp:25-34 | the vertex coloured in a round is itself a greedy choice |
| `Coloring.NeighbourColorsStep` | TP0/main.cpp:30-32 | looking at one more neighbour adds its colour exactly when it is coloured |
| `Coloring.NeighbourColorsCard` | TP0/main.cpp:28-32 | there are no more neighbour colours than coloured neighbours |
| `Coloring.CollectNeighbourColors` | TP0/main.cpp:28-32 | the loop collects exactly the colours of v's coloured neighbours |
| `Coloring.ChoicesAreDistinct` | TP0/main.cpp:23-26 | no vertex is chosen twice |
| `Coloring.WithoutSymmetric` | TP0/main.cpp:25-26 | deleting vertices keeps the remaining graph symmetric and loop-free |
| `Coloring.MaxColorStep` | TP0/main.cpp:36-37 | `maxColor` stays the largest colour used |
| `Coloring.TakeMaxDegreeVertex` | TP0/main.cpp:25-26 | takes a not yet coloured vertex of largest remaining degree and deletes it from the working graph |
| `Coloring.ChooseColor` | TP0/main.cpp:28-34 | the least colour missing among v's coloured neighbours |
| `Coloring.GreedyColor` | TP0/main.cpp:16-42 | every vertex is coloured, the colouring is proper, each colour is at most the degree, and `maxColor` is the largest colour |
| `Coloring.GreedyColoringDone` | TP0/main.cpp:23-41 | after the loop the colouring is proper, within the degrees, and each vertex was coloured once |
| `Coloring.TestColor` | TP0/main.cpp:44-64 | accepts exactly the colourings that colour every vertex and give adjacent vertices different colours |
| `Segments.LessIsStrictTotalOrder` | TP1/files.hpp:57-59 | `operator<` on points is a strict total order |
| `Segments.Sub` | TP1/files.hpp:61-63 | subtraction undoes addition |
| `Segments.PointArithmetic` | TP1/files.hpp:61-72 | adding then subtracting gives the point back; `+` and the dot product are symmetric |
| `Segments.InsideIsBox` | TP1/files.hpp:79-85 | `inside` is membership of the closed box spanned by p and q, symmetric in them, holding both corners |
| `Segments.MakeSegment` | TP1/files.hpp:100-109 | the constructor stores the two given points, smaller one first |
| `Segments.MakeSegmentSymmetric` | TP1/files.hpp:100-109 | the order of the constructor's arguments does not matter |
| `Segments.OrientationValue` | TP1/files.hpp:124-128 | the `val` of `orientation` is minus the signed area of p, q, r |
| `Segments.Orientation` | TP1/files.hpp:123-131 | 1, -1 or 0 exactly as p, q, r turn clockwise, counter-clockwise or are collinear |
| `Segments.CrossIrreflexive` | TP1/files.hpp:148-150 | a segment does not cross itself |
| `Segments.CrossInGeneralPosition` | TP1/files.hpp:139-142 | with no three endpoints collinear, the segments cross exactly when each one's endpoints straddle the other's line |
| `Segments.CrossSymmetric` | TP1/files.hpp:133-165 | crossing is symmetric between constructed segments, both for `cross` as written and for the corrected test |
| `Segments.CrossImpliesCrossAsWritten` | TP1/files.hpp:144-146 | every pair the corrected test accepts, `cross` as written accepts too: the correction only drops crossings |
| `Segments.OnSegmentKeepsSide` | TP1/files.hpp:144-146 | a point of a segment lies strictly on the side of a line where both ends lie |
| `Segments.CrossNeedsStraddle` | TP1/files.hpp:133-165 | segments do not cross when one lies strictly on one side of the other's line |
| `Segments.CrossAsWrittenBoxOnly` | TP1/files.hpp:144-146 | as written, four distinct endpoints with one collinear need only an endpoint in the other's box |
| `Segments.CrossAsWrittenIgnoresSides` | TP1/files.hpp:144-146 | as written, (0,0)–(2,2) and (0,1)–(3,3) cross although they lie apart |
| `Segments.DrawSegments` | TP1/files.hpp:186-190 | the k-th segment joins the two drawn endpoints of edge k, smaller point first |
| `Segments.ReadGraph` | TP1/files.hpp:178-204 | one vertex per drawn edge, and an edge exactly between two distinct segments that `cross` as written accepts |
| `Segments.ReadGraphCorrected` | TP1/files.hpp:178-204 | the same vertices, and an edge exactly between two distinct segments that the corrected test accepts |
| `Segments.ConflictGraph` | TP1/files.hpp:192-201 | vertices 0 to n-1, and an edge exactly between two distinct segments the given crossing test accepts, found by testing both orders |
| `Segments.ConnectRow` | TP1/files.hpp:199-201 | one pass of the inner loop adds exactly the pairs (i, j) the crossing test accepts |
| `Domination.NothingLeft` | TP3/dom/solver.hpp:116-119 | once no vertex is undominated, the dominating vertices form a dominating set |
| `Domination.ErasedCompletes` | TP3/dom/solver.hpp:168-180 | the vertices improve erases complete the rest of the dominating set again |
| `Domination.ClosedNSymmetric` | TP3/dom/solver.hpp:55-56 | u is a closed neighbour of v exactly when v is one of u |
| `Domination.InsertGain` | TP3/dom/solver.hpp:28-36 | inserting v dominates exactly its closed neighbourhood in addition |
| `Domination.InsertState` | TP3/dom/solver.hpp:28-36 | the sets left by `insert_dominating` are again consistent |
| `Domination.EraseState` | TP3/dom/solver.hpp:50-62 | the sets left by `erase_dominating` are again consistent |
| `Domination.EraseLoss` | TP3/dom/solver.hpp:50-62 | erasing v undominates exactly its closed neighbours that have no other dominating closed neighbour |
| `Domination.CompletesDomination` | TP3/dom/solver.hpp:122-133 | the undominated vertices are covered by dom's neighbourhoods exactly when inserting dom dominates every vertex |
| `Domination.GainShrinks` | TP3/dom/solver.hpp:84-92 | dominating more can only lower a gain, so stale queue values are upper bounds |
| `Domination.UndominatedGain` | TP3/dom/solver.hpp:83-96 | an undominated vertex is not dominating and has gain at least one, so `best_vertices` is not empty |
| `Domination.PositiveGainProgress` | TP3/dom/solver.hpp:116-119 | inserting a vertex of positive gain leaves fewer vertices undominated, so the loop ends |
| `Domination.NeighbourhoodStep` | TP3/dom/solver.hpp:124-127 | adding a vertex adds its closed neighbourhood to the union |
| `Domination.NeighbourhoodInGraph` | TP3/dom/solver.hpp:141-144 | closed neighbourhoods hold only vertices |
| `Domination.ExactBound` | TP3/dom/solver.hpp:146-156 | when no combination of fewer than k candidates covers, no set of fewer than k vertices completes the domination |
| `Domination.CandidatesSuffice` | TP3/dom/solver.hpp:139-144 | of any completing set, its candidates alone cover the undominated vertices |
| `Domination.CombinationOfCover` | TP3/dom/solver.hpp:146-150 | a covering set of candidates is one of the combinations tried for its size |
| `Domination.ExactOutcome` | TP3/dom/solver.hpp:138-159 | after solve_exact every vertex is dominated, no completing set is smaller than what was inserted, and at most \|removed\| vertices were added |
| `Domination.TopIndex` | TP3/dom/solver.hpp:79-82 | `heap.top()` is an entry no other entry exceeds in pair order |
| `Domination.BoundsShrink` | TP3/dom/solver.hpp:116-119 | queue values stay bounds on gains as the sets grow |
| `Domination.WeightRemove` | TP3/dom/solver.hpp:81-82 | a pop lowers the queue's measure by the popped entry's share |
| `Domination.Push` | TP3/dom/solver.hpp:90-91 | a push adds its entry's share to the measure and its vertex to the queued vertices |
| `Domination.PushBounds` | TP3/dom/solver.hpp:90-91 | pushing an entry that bounds its vertex's gain keeps every entry a bound |
| `Domination.PushAtMost` | TP3/dom/solver.hpp:90-91 | pushing a value no larger than the best keeps the best an upper bound on the queue |
| `Domination.QueuedGain` | TP3/dom/solver.hpp:79-80 | a queued non-dominating vertex has no larger gain than any bound on the queued values |
| `Domination.BestIsLargest` | TP3/dom/solver.hpp:79-96 | after popping, `best_vertices` is non-empty, its gain is positive and no non-dominating vertex has a larger gain |
| `Domination.RemoveAtVertices` | TP3/dom/solver.hpp:81-82 | a pop keeps every other queued vertex and removes no other entry |
| `Domination.RemoveAtBounds` | TP3/dom/solver.hpp:81-82 | a pop keeps the other entries bounds |
| `Domination.RemoveAtAtMost` | TP3/dom/solver.hpp:81-82 | a pop keeps an upper bound on the values |
| `Domination.RemoveTop` | TP3/dom/solver.hpp:79-82 | once the top is popped its value bounds every value left |
| `Domination.Solver.constructor` | TP3/dom/solver.hpp:20-25 | nothing dominates, nothing is dominated, every vertex is listed |
| `Domination.Solver.InsertDominating` | TP3/dom/solver.hpp:28-36 | v joins the dominating set and its closed neighbourhood the dominated set; the sets stay consistent |
| `Domination.Solver.TestDominated` | TP3/dom/solver.hpp:40-46 | true exactly when some closed neighbour of v dominates |
| `Domination.Solver.EraseDominating` | TP3/dom/solver.hpp:50-62 | false and no change unless v dominates; else v leaves and exactly its orphaned closed neighbours become undominated |
| `Domination.Solver.DropOrphans` | TP3/dom/solver.hpp:55-60 | the loop moves exactly the orphaned closed neighbours from dominated to not dominated |
| `Domination.Solver.CountDomination` | TP3/dom/solver.hpp:65-73 | the number of vertices inserting v would newly dominate, at most deg(v) + 1 |
| `Domination.Solver.ChooseVertex` | TP3/dom/solver.hpp:75-107 | a non-dominating vertex of largest, positive gain; the other candidates stay queued with valid bounds |
| `Domination.Solver.PopBest` | TP3/dom/solver.hpp:79-94 | afterwards every non-dominating vertex is in `best_vertices` with the common fresh gain, or still queued below it |
| `Domination.Solver.PopOnce` | TP3/dom/solver.hpp:81-93 | one pop keeps the popping invariants and strictly lowers the queue's measure |
| `Domination.Solver.RequeueOthers` | TP3/dom/solver.hpp:98-104 | the unchosen best vertices are queued again, with bounds kept |
| `Domination.Solver.SolveGreedy` | TP3/dom/solver.hpp:110-120 | ends with every vertex dominated, so the dominating vertices form a dominating set |
| `Domination.Solver.WouldDominateAll` | TP3/dom/solver.hpp:122-133 | true exactly when dom's closed neighbourhoods cover every undominated vertex |
| `Domination.Solver.SolveExact` | TP3/dom/solver.hpp:138-159 | given a known completing set, inserts a smallest completing set, no larger than the known one, leaving nothing undominated |
| `Domination.Solver.Candidates` | TP3/dom/solver.hpp:139-144 | the closed neighbours of the undominated vertices |
| `Domination.Solver.FindCover` | TP3/dom/solver.hpp:146-156 | finds a covering combination of the least size up to the limit, or reports that no set within the limit completes |
| `Domination.Solver.Improve` | TP3/dom/solver.hpp:165-182 | the dominating set stays a dominating set and never grows; the result says whether it shrank |
| `Domination.Solver.EraseAround` | TP3/dom/solver.hpp:168-178 | erases at most four dominating closed neighbours of v, and only those |
| `Domination.Solver.InsertAll` | TP3/dom/solver.hpp:151-152 | inserting each vertex of dom adds dom to the dominating set and its neighbourhood to the dominated set |
| `Tools.RandomElement` | TP3/ind/tools.hpp:21-25 | some element of the non-empty vector |
| `Tools.Shuffle` | TP3/ind/tools.hpp:35 | a permutation of the elements |
| `Tools.ExtensionsMembers` | TP3/ind/tools.hpp:41-46 | the extensions by x are exactly the vectors x may extend, with x appended |
| `Tools.ExtensionsDistinct` | TP3/ind/tools.hpp:41-46 | extending distinct vectors by x gives distinct vectors |
| `Tools.LayerMembers` | TP3/ind/tools.hpp:40-47 | a round yields the vectors whose last element extends a previous vector |
| `Tools.LayerDistinct` | TP3/ind/tools.hpp:40-47 | a round lists nothing twice |
| `Tools.LayerCombinations` | TP3/ind/tools.hpp:37-48 | a round takes the increasing i-subsets to exactly the increasing (i+1)-subsets |
| `Tools.CombinationSplit` | TP3/ind/tools.hpp:42 | a combination of i+1 elements is one of i elements extended by a larger element |
| `Tools.Combinations` | TP3/ind/tools.hpp:29-51 | every increasing vector of k elements of s, each once (the empty vector alone for k ≤ 0) |
| `Tools.IncreasingDetermined` | TP3/ind/tools.hpp:42 | an increasing vector is determined by its elements |
| `Tools.SubsetHasOneCombination` | TP3/ind/tools.hpp:28-51 | each k-subset of s is listed by exactly one vector |
| `Independence.CountInsert` | TP2/Solver.hpp:81-86 | inserting v raises by one exactly the counts of its closed neighbours |
| `Independence.CountErase` | TP2/Solver.hpp:88-93 | erasing v lowers by one exactly the counts of its closed neighbours |
| `Independence.CountsInsert` | TP2/Solver.hpp:81-86 | `incrementNeighbors` after an insertion keeps every count exact |
| `Independence.CountsErase` | TP2/Solver.hpp:88-93 | `decrementNeighbors` before an erasure keeps every count exact |
| `Independence.ClosedNInGraph` | TP2/Solver.hpp:83 | closed neighbourhoods hold only vertices |
| `Independence.CountsEmpty` | TP2/Solver.hpp:38-40 | zero counts are exact for the empty set |
| `Independence.ZeroCountExtends` | TP2/Solver.hpp:66-69 | a vertex of count zero is outside the set and can join it without breaking independence |
| `Independence.PositiveCountsMaximal` | TP2/Solver.hpp:66-71 | with exact counts, all counts positive exactly when the independent set is maximal |
| `Independence.WithoutMembers` | TP2/Solver.hpp:95-105 | `remove_if` keeps exactly the elements outside the closed neighbourhood, and shortens the queue when it removes one |
| `Independence.WithoutConcat` | TP2/Solver.hpp:99-104 | filtering keeps the survivors' relative order |
| `Independence.Solver.constructor` | TP2/Solver.hpp:28-41 | an empty set, every vertex listed, every count zero |
| `Independence.Solver.IncrementNeighbors` | TP2/Solver.hpp:81-86 | adds one to exactly the counts of v's closed neighbours |
| `Independence.Solver.DecrementNeighbors` | TP2/Solver.hpp:88-93 | subtracts one from exactly the counts of v's closed neighbours |
| `Independence.Solver.RemoveNeighborsFromQueue` | TP2/Solver.hpp:95-105 | the queue without v and its neighbours, the rest in order |
| `Independence.Solver.RandomNeighborless` | TP2/Solver.hpp:107-119 | some vertex of count zero, none exactly when every count is non-zero |
| `Independence.Solver.RemoveRandomInd` | TP2/Solver.hpp:121-133 | no change on an empty set; otherwise exactly one member leaves, with its counts |
| `Independence.Solver.Take` | TP2/Solver.hpp:53-54 | a vertex of count zero joins the set, which stays independent with exact counts |
| `Independence.Solver.SolveGreedy` | TP2/Solver.hpp:43-57 | ends with a maximal independent set and every count positive |
| `Independence.Solver.TakeQueue` | TP2/Solver.hpp:51-56 | queued vertices have count zero and the others a positive one, so at the end every count is positive |
| `Independence.Solver.Improve` | TP2/Solver.hpp:60-72 | ends with a maximal independent set at most one smaller; the result says whether it grew |
| `Independence.Solver.AddNeighborless` | TP2/Solver.hpp:66-69 | adds vertices of count zero until every count is positive, keeping the set independent |
| `Validators.Decode` | TP2/testind.py:17 | the id is IdBase·x + y with 0 ≤ y < IdBase (floor division, negative ids included) |
| `Validators.DecodeEncode` | TP2/testind.py:17 | decoding an encoded point with y in range gives it back |
| `Validators.EncodeDecode` | TP2/testind.py:17 | encoding a decoded id gives the id back, so no two ids share a point |
| `Validators.EndpointStep` | TP2/testind.py:22-30 | one more edge adds exactly its two ends as keys |
| `Validators.LinkedStep` | TP2/testind.py:22-30 | one more edge adds exactly its two orientations |
| `Validators.BuildGraph` | TP2/testind.py:20-32 | the keys are the ends of the edges and b is in G[a] exactly when (a, b) or (b, a) is listed |
| `Validators.BuildStep` | TP2/testind.py:22-30 | one loop pass takes the graph of a prefix to the graph of one more edge |
| `Validators.BuildKeys` | TP2/testind.py:23-30 | one loop pass adds exactly the two ends as keys |
| `Validators.BuildLinks` | TP2/testind.py:23-30 | one loop pass adds exactly the two orientations of the edge |
| `Validators.LinkedEnds` | TP2/testind.py:22-30 | both ends of a listed edge become keys |
| `Validators.AddBoth` | TP2/testind.py:23-30 | the two updates add v to u's set and u to v's set, creating missing entries, and nothing else |
| `Validators.BuiltSymmetric` | TP2/testind.py:20-32 | the built adjacency is symmetric |
| `Validators.TestInd` | TP2/testind.py:39-53 | flags the members of I that are not vertices and both ends of every edge inside I |
| `Validators.BadEdgeStep` | TP2/testind.py:47-51 | one more edge flags its two ends exactly when both are in I |
| `Validators.IndErrorsMeaning` | TP2/testind.py:39-53 | only members of I are flagged, both ends of each bad edge are, and nothing is reported exactly when I is a set of vertices no edge joins |
| `Validators.AcceptsIndependent` | TP2/testind.py:39-53 | on the built graph the accepted sets are exactly the independent sets of vertices |
| `Validators.TestDom` | TP4/dom/testdom.py:38-51 | flags the members of D that are not vertices and every vertex with no closed neighbour in D |
| `Validators.DomErrorsMeaning` | TP4/dom/testdom.py:38-51 | a vertex in D is never flagged as undominated, and nothing is reported exactly when D is a dominating set |

## Left out

- I/O is not modelled. This covers reading JSON instances (`read_json`, `json_int_vec`, `readInstance`), edge, point and solution files (`readEdges`' file loop, `readInd`, `readDom`, `readPoints`, the `Graph(filename)` constructor), SVG output, console messages, exit codes, `save`, the drivers' `main` functions and the clock `elapsed()`. The models take the parsed values as parameters.
- Floating point is not modelled. Python coordinates and the radius are integers here, and so are the C++ `Number` values (`long long`) and the result of `key_of`. `DiskPacking.KeyOf` is the exact floor. `key_of` computes it exactly only when `long double` is wide enough to hold the coordinates, as the 80-bit format is. `distance2` returns a `double`, and the kill test at TP1/public_cpp/main.cpp:149 compares it with a `long long`. The model compares exact squared distances, so it does not capture the rounding of squared distances above 2^53. `distance` (a square root) is not used by the greedy.
- Integer overflow of `long long` products in `distance2`, `proj` and `orientation` is not modelled: the integers are unbounded.
- DiskPacking.ManyRuns: the directions are a parameter. The source computes them as `65536·cos`, `65536·sin` (C++) or `cos`, `sin` (Python) of evenly spaced angles.
- DiskPackingPy.ManyRuns: the same applies to the Python directions.
- DiskPacking.SortIndices: `std::sort` leaves the order of equal projections open. The model fixes the stable order, so a run whose result depends on that tie order is one admissible run among several.
- The random generators (`rgen`, `rng`, `std::shuffle`, `random_element`, the `Distributor` draws) are nondeterministic choices. The seed and the distribution are not modelled.
- Both packing models require `radius > 0`. With a zero radius the C++ `key_of` divides by zero, and the Python `getCell` raises a division error.
- `fromVertices` in TP4/ind/Graph.hpp is left out. It does not build a graph: `Graph graph();` declares a function, and nothing is returned.
- TP1/graph.hpp and TP3/ind/solver.hpp are not part of this model.
- Graphs.Graph.Neighbors, Graphs.Graph.ClosedNeighbors and Graphs.Graph.Bfs: require v to be a vertex. For an absent vertex `adj.at` throws `std::out_of_range`, which is not modelled. Every caller passes a vertex.
- Graphs.Graph.Edges: requires a non-empty graph. On an empty graph `vs.size() - 1` wraps around, and the outer loop counts to 2^64 - 1 without doing anything.
- Coloring.GreedyColor: TP0/main.cpp:21-23 declares `vertices` but loops on `todo`, which is never declared. The model reads `todo` as a copy of g that the loop shrinks with `removeVertex`. The printed colour count is the returned `maxColor` plus one.
- Domination.Solver.SolveGreedy: requires every queued entry to bound its vertex's gain. This holds for the empty queue of a new solver, where the source calls it.
- Domination.Solver.SolveExact: ensures that no vertex is left undominated. `Domination.NothingLeft` then gives a dominating set. When no completing set is known, the source reaches `assert(false)`, so that case is excluded by the precondition.
- Domination.Solver.Improve: requires a dominating set (nothing undominated) and at least one vertex, as the driver guarantees. It needs the dominating set for `solve_exact` to succeed, and a vertex for `random_element`.
- Independence.Solver.SolveGreedy: requires the empty set of a new solver, which is where the source calls it.
- The solvers hold the graph by reference. The model holds a copy of its adjacency that nothing changes, so aliasing with a graph that changes elsewhere is not modelled.
- The C++ priority queue is a sequence whose largest pair is the top. Its heap layout is not modelled.
- The `solution()` getters and `Segment::get_p`/`get_q` are the fields of the model. `toString` and `operator<<` only format text.
- `Validators.Decode` models the decode step of `readEdges`. The line splitting and the `P` dictionary it fills are I/O and drawing support.

## Findings

| source | as written | input that shows it | evidently intended | confidence | as-written member | corrected member |
|---|---|---|---|---|---|---|
| TP1/files.hpp:144-146 | with four distinct endpoints and one orientation zero, `cross` returns true when any endpoint lies in the other segment's bounding box, even an endpoint off the other segment's line | (0,0)–(2,2) and (0,1)–(3,3): (3,3) is on the first segment's line and (0,1) in its box, so `cross` says true, yet both ends of the first lie strictly on one side of the second's line and the segments do not meet | only an endpoint on the other segment's line and in its box makes collinear-touching segments cross, so segments on strictly one side of each other never cross | not executed | `Segments.CrossAsWrittenIgnoresSides` (about `Segments.CrossAsWritten`, which `Segments.ReadGraph` uses) | `Segments.CrossNeedsStraddle` (about `Segments.Cross`, which `Segments.ReadGraphCorrected` uses) |
