# Graph visualizer: the algorithm engine and its editing rules

A model of the logic behind the graph-vizualizer web page. The page keeps an
undirected graph on the vertices 1..n (at most 50) as an edge list. The user edits
the list in a table, whose rows are checked for out-of-range endpoints,
self-loops and duplicate pairs. The user can then run:

- a breadth-first or depth-first traversal from a start vertex, which is
  animated step by step or played automatically;
- Kruskal's spanning-forest selection on a weighted graph;
- a greedy vertex colouring;
- a greedy edge colouring.

The model follows the program file by file:

| module | source file | form |
|---|---|---|
| `GraphTypes` | `src/types/graph.ts` | datatypes `Edge`, `GraphData`, `Option` |
| `GraphModel` | `src/graph/Graph.ts` | class `Graph`; `GetAdjacencyList` is a loop over the edges |
| `BreadthFirst` | `src/graph/algorithms/bfs.ts` | method with a `visited` array, a FIFO queue and the output list |
| `DepthFirst` | `src/graph/algorithms/dfs.ts` | method with the recursive `Visit` over a shared `visited` array |
| `WeightSort` | the `sort` call in `kruskal.ts` | the stable sort by weight |
| `Kruskal` | `src/graph/algorithms/kruskal.ts` | class `DisjointSet` over `parent` and `rank` arrays; method `Kruskal` |
| `Coloring` | `src/graph/algorithms/coloring.ts` | the two greedy colourings as loops |
| `EdgeListInput` | `src/components/EdgeListInput.tsx` | the validation pass, `addEdge`, field change and delete |
| `GraphVisualizer` | `src/pages/graph-visualizer.tsx` | class `Visualizer`, whose fields are the page state and whose methods are its handlers |

`Sequences` and `Walks` are shared vocabulary with no source file of their own:

- `Sequences` defines distinct sequences and subsequences.
- `Walks` defines walks, connectivity and walk length.

Each imperative method is tied to a pure reference function of its inputs.
For example, `Bfs` ensures `order == BfsOrder(...)`. The properties the program
promises are proved about those functions and restated in the methods'
postconditions.

The page's state is the class `GraphVisualizer.Visualizer`. Each React
`useState` hook becomes a field, and each handler becomes a method that
reassigns the fields the handler sets. The invariant `Valid` says that:

- the vertex count is in 1..50;
- the start vertex is a vertex;
- the animation cursor points into the order whenever there is one.

## Model

| member | source | states |
|---|---|---|
| GraphModel.Graph.constructor | src/graph/Graph.ts:8-12 | vertices, edges and the weighted flag are stored unchanged |
| GraphModel.Graph.GetAdjacencyList | src/graph/Graph.ts:15-23 | keys are exactly 1..vertices; the list of v is `Neighbours(edges, v)`, the endpoints pushed for v in edge order; all lists are empty when there are no edges; requires every endpoint in 1..vertices |
| GraphModel.NeighboursIff | src/graph/Graph.ts:18-21 | w is on v's list exactly when some edge joins v and w (soundness and completeness) |
| GraphModel.AdjacencySymmetric | src/graph/Graph.ts:18-21 | for every edge (a, b), b is on a's list and a on b's |
| GraphModel.NeighboursWithin | src/graph/Graph.ts:17-21 | with endpoints in 1..n, every listed neighbour is a vertex |
| GraphModel.NeighboursAppend | src/graph/Graph.ts:18-21 | scanning two edge lists one after the other concatenates the neighbour lists, which gives insertion order |
| GraphModel.NeighboursLength | src/graph/Graph.ts:18-21 | without loops, v's list has one entry per incident edge (its degree) |
| GraphModel.NeighbourTotalIsTwiceEdges | src/graph/Graph.ts:17-21 | the lists of 1..n hold 2·\|edges\| entries in all |
| GraphModel.Cycle4Neighbours | src/graph/Graph.ts:18-21 | on the 4-cycle the lists are 1:[2,4], 2:[1,3], 3:[2,4], 4:[3,1] |
| BreadthFirst.Bfs | src/graph/algorithms/bfs.ts:3-23 | the output is `BfsOrder`; it starts at `start`, has no repeats, holds exactly the vertices connected to `start`, never decreases in distance from `start`, and has at most `vertices` entries |
| BreadthFirst.ScanNeighbours | src/graph/algorithms/bfs.ts:14-19 | the inner loop marks and enqueues exactly the unvisited neighbours, in list order (`Discover`) |
| BreadthFirst.DiscoverSpec | src/graph/algorithms/bfs.ts:14-19 | one scan visits every neighbour, keeps the old queue as a prefix and appends each unvisited neighbour once |
| BreadthFirst.BfsStep | src/graph/algorithms/bfs.ts:11-20 | one dequeue-and-scan keeps the loop invariant: visited = output ∪ queue, disjoint, levels exact, levels sorted along output+queue, queue spans at most two adjacent levels |
| BreadthFirst.BfsOrderCorrect | src/graph/algorithms/bfs.ts:3-23 | `BfsOrder` meets every property listed for `Bfs` |
| BreadthFirst.BfsCycleExample | src/graph/algorithms/bfs.ts:3-23 | on the 4-cycle (1,2),(2,3),(3,4),(4,1) from 1 the output is [1, 2, 4, 3] |
| DepthFirst.Dfs | src/graph/algorithms/dfs.ts:3-18 | the output is `DfsOrder`; it starts at `start`, has no repeats, holds exactly the vertices connected to `start`, each later vertex is adjacent to an earlier one, and it has at most `vertices` entries |
| DepthFirst.Visit | src/graph/algorithms/dfs.ts:8-14 | `visit(v)` appends `DfsVisit(v)` and keeps `visited` equal to the output's members |
| DepthFirst.DfsVisit | src/graph/algorithms/dfs.ts:8-14 | the old output is a prefix of the new one and v comes right after it |
| DepthFirst.DfsVisitFacts | src/graph/algorithms/dfs.ts:8-14 | a visit adds no repeat, leaves every neighbour of a new vertex visited, and gives each new vertex an earlier neighbour |
| DepthFirst.VisitedShrinks | src/graph/algorithms/dfs.ts:8-12 | each call strictly shrinks the set of unvisited vertices, so the recursion ends |
| DepthFirst.DfsOrderCorrect | src/graph/algorithms/dfs.ts:3-18 | `DfsOrder` meets every property listed for `Dfs` |
| DepthFirst.DfsCycleExample | src/graph/algorithms/dfs.ts:3-18 | on the 4-cycle from 1 the output is [1, 2, 3, 4] |
| WeightSort.SortSpec | src/graph/algorithms/kruskal.ts:33 | sorting by `weight ?? 1` gives a sequence sorted by weight, a permutation of the input, and stable (each weight class keeps its input order) |
| WeightSort.SortUnique | src/graph/algorithms/kruskal.ts:33 | two weight-sorted sequences with the same weight classes are equal, so the stable sort's result is determined |
| WeightSort.InsertSorted | src/graph/algorithms/kruskal.ts:33 | inserting into a sorted sequence keeps it sorted |
| WeightSort.InsertPerm | src/graph/algorithms/kruskal.ts:33 | insertion adds exactly the new edge to the multiset |
| WeightSort.InsertStable | src/graph/algorithms/kruskal.ts:33 | insertion puts the new edge last in its weight class |
| WeightSort.Insert | src/graph/algorithms/kruskal.ts:33 | one edge longer, holding the old edges and the new one and nothing else (order and stability are `InsertSorted` and `InsertStable`) |
| WeightSort.SortByWeight | src/graph/algorithms/kruskal.ts:33 | the sorted copy is as long as the input and holds the same edges (permutation, order and stability are `SortSpec`) |
| WeightSort.LightSorted | src/graph/algorithms/kruskal.ts:33 | in a weight-sorted list the edges of weight ≤ w form a prefix: position j holds one exactly when j is below their count |
| WeightSort.LightPrefix | src/graph/algorithms/kruskal.ts:33 | a prefix whose edges weigh ≤ w is no longer than the number of such edges in the list |
| WeightSort.SortLight | src/graph/algorithms/kruskal.ts:33 | sorting keeps, for every w, the number of edges of weight ≤ w |
| Kruskal.DisjointSet.constructor | src/graph/algorithms/kruskal.ts:7-12 | parent[i] = i and rank[i] = 0 for i in 0..n; n+1 singleton classes |
| Kruskal.DisjointSet.Find | src/graph/algorithms/kruskal.ts:13-16 | returns x's root (a self-parent); x now points at it; every other parent is unchanged or now points at its own root; the partition and the invariant are kept |
| Kruskal.DisjointSet.Union | src/graph/algorithms/kruskal.ts:17-27 | afterwards x and y share a class; exactly their two classes merge; no change when they already shared a class; one class fewer otherwise. The root of lower rank is relabelled to the other; on equal ranks y's root goes under x's root, whose rank rises by one; no other rank changes |
| Kruskal.DisjointSet.Link | src/graph/algorithms/kruskal.ts:21-25 | the child root's class is relabelled to the parent root; only `parent[c]` changes, to p; only `rank[p]` may change, rising by one exactly when bumped; the invariant is kept |
| Kruskal.CompressWellformed | src/graph/algorithms/kruskal.ts:14 | path compression keeps the partition and the rank order |
| Kruskal.LinkWellformed | src/graph/algorithms/kruskal.ts:21-25 | linking a lower-ranked root below a higher-ranked one, or an equal one with a rank bump, keeps parent rank above child rank |
| Kruskal.ConsiderEdge | src/graph/algorithms/kruskal.ts:34-40 | an edge is pushed and its endpoints united exactly when their roots differ; otherwise nothing changes |
| Kruskal.Kruskal | src/graph/algorithms/kruskal.ts:30-42 | the result is `KruskalForest`: a subsequence of the weight-sorted edges, so its weights never decrease; acyclic; connecting exactly the pairs the graph connects; a minimum spanning forest (no spanning forest of the graph weighs less); at most `vertices` edges, and at most `vertices - 1` when endpoints are in 1..vertices |
| Kruskal.SelectedAcyclic | src/graph/algorithms/kruskal.ts:36-38 | no selected edge joins vertices already connected by the earlier selected edges |
| Kruskal.SelectedConnects | src/graph/algorithms/kruskal.ts:34-40 | the endpoints of every edge considered are connected by the selected edges |
| Kruskal.SelectedPicks | src/graph/algorithms/kruskal.ts:34-37 | the selection is a subsequence of the considered edges |
| Kruskal.SubsequenceSorted | src/graph/algorithms/kruskal.ts:33-37 | a subsequence of a weight-sorted sequence is weight-sorted |
| Kruskal.KruskalForestCorrect | src/graph/algorithms/kruskal.ts:30-42 | the selection meets every property listed for `Kruskal` |
| Kruskal.ComponentsTrack | src/graph/algorithms/kruskal.ts:34-40 | merging the classes of each edge's endpoints in turn gives a partition of 0..n that relates exactly the vertices the edges connect |
| Kruskal.ComponentsMerge | src/graph/algorithms/kruskal.ts:36-38 | the last edge merges the classes of its endpoints, or changes nothing when they already share one |
| Kruskal.ComponentsStep | src/graph/algorithms/kruskal.ts:36-38 | tracking connectivity is kept when an edge is added |
| Kruskal.AcyclicComponents | src/graph/algorithms/kruskal.ts:36-38 | an acyclic edge list on 0..n leaves exactly n + 1 − \|f\| components |
| Kruskal.CoarserFewer | src/graph/algorithms/kruskal.ts:34-40 | a list that connects whatever another connects has no more components |
| Kruskal.AcyclicNoLarger | src/graph/algorithms/kruskal.ts:36-38 | an acyclic list has at most as many edges as an acyclic list connecting everything it connects |
| Kruskal.LightAcyclic | src/graph/algorithms/kruskal.ts:36-38 | dropping the edges heavier than w keeps a forest acyclic |
| Kruskal.SelectedWithin | src/graph/algorithms/kruskal.ts:34-37 | the selected edges keep the endpoint bounds of the input |
| Kruskal.SelectedLightPrefix | src/graph/algorithms/kruskal.ts:33-40 | the selection from the sorted edges of weight ≤ w has at most as many edges as the whole selection has of weight ≤ w |
| Kruskal.LightSpanned | src/graph/algorithms/kruskal.ts:33-40 | the selection from the sorted edges of weight ≤ w connects the ends of every edge of weight ≤ w that another forest takes from the graph |
| Kruskal.LightBound | src/graph/algorithms/kruskal.ts:30-42 | for every w, a spanning forest of the graph has no more edges of weight ≤ w than the selection |
| Kruskal.SortTotal | src/graph/algorithms/kruskal.ts:33 | sorting keeps the total weight |
| Kruskal.TotalDominated | src/graph/algorithms/kruskal.ts:30-42 | two lists of equal length, the first no heavier position by position, compare the same way in total weight |
| Kruskal.KruskalSpanning | src/graph/algorithms/kruskal.ts:30-42 | the selection is a spanning forest of the graph: drawn from its edges, acyclic, connecting what it connects |
| Kruskal.KruskalMinimal | src/graph/algorithms/kruskal.ts:30-42 | every spanning forest of the graph has as many edges as the selection and at least its total weight |
| Kruskal.KruskalMinimum | src/graph/algorithms/kruskal.ts:30-42 | the selection is a minimum spanning forest of the graph |
| Kruskal.KruskalTriangle | src/graph/algorithms/kruskal.ts:30-42 | for (1,2,w5), (2,3,w1), (1,3,w3) the result is [(2,3,1), (1,3,3)], total weight 4 |
| Coloring.FirstFree | src/graph/algorithms/coloring.ts:9-10 | `while (used.has(color)) color++` ends at the least positive colour not in `used`, at most \|used\| + 1 |
| Coloring.ColourFor | src/graph/algorithms/coloring.ts:7-10 | v's colour is the least positive one not held by an already-coloured neighbour, at most \|adj[v]\| + 1 |
| Coloring.UsedColoursIff | src/graph/algorithms/coloring.ts:8 | c is in the used set exactly when some already-coloured neighbour holds c |
| Coloring.GreedyVerticesColoring | src/graph/algorithms/coloring.ts:3-14 | exactly 1..vertices are coloured, each with the least positive colour not held by a lower-numbered neighbour; colour(v) ≤ \|adj[v]\| + 1, and ≤ deg(v) + 1 without loops |
| Coloring.GreedyColouringProper | src/graph/algorithms/coloring.ts:8-11 | two distinct adjacent vertices get different colours |
| Coloring.GreedyColouringUnique | src/graph/algorithms/coloring.ts:3-14 | there is only one greedy colouring of a graph, so the result is determined |
| Coloring.TriangleColouring | src/graph/algorithms/coloring.ts:3-14 | on the triangle on {1,2,3} the result is {1:1, 2:2, 3:3} |
| Coloring.GreedyEdgeColoring | src/graph/algorithms/coloring.ts:17-31 | one triple per edge with its endpoints in order; each colour is the least positive one not already placed at either endpoint; requires endpoints in 0..vertices |
| Coloring.IncidentColoursIff | src/graph/algorithms/coloring.ts:22-28 | `used[v]` after k edges holds exactly the colours of the earlier triples touching v |
| Coloring.EdgeColouringProper | src/graph/algorithms/coloring.ts:24-28 | two edges sharing an endpoint get different colours, each ≥ 1 |
| Coloring.EdgeColourBound | src/graph/algorithms/coloring.ts:24-25 | without loops, an edge's colour is ≤ deg(from) + deg(to) − 1 |
| EdgeListInput.EdgeKeyUnordered | src/components/EdgeListInput.tsx:28-29 | edgeKey(a,b) = edgeKey(b,a), and two keys are equal exactly when the pairs are equal up to orientation |
| EdgeListInput.Validate | src/components/EdgeListInput.tsx:25-62 | an index is in the error map exactly when its row is flagged. An out-of-range row gets the range error and no further check. An in-range row with equal endpoints gets the loop error. A row repeating an earlier accepted pair gets the duplicate error. The map is empty exactly when the list is well formed |
| EdgeListInput.NoErrorsIffWellFormed | src/components/EdgeListInput.tsx:33-59 | no row is flagged exactly when every edge is in range, loop-free and pairwise distinct as an unordered pair |
| EdgeListInput.AddEdge | src/components/EdgeListInput.tsx:74-94 | no change when `edges.length ≥ n(n−1)/2`; otherwise the lexicographically first pair (i<j) missing in both orientations is appended, with weight 1 if weighted, or nothing changes when no such pair exists; a well-formed list stays well formed and grows by one when below the maximum |
| EdgeListInput.FirstFreeUnique | src/components/EdgeListInput.tsx:86-93 | the first free pair is unique |
| EdgeListInput.AddKeepsWellFormed | src/components/EdgeListInput.tsx:88-89 | appending the first free pair keeps a list well formed |
| EdgeListInput.FreePairExists | src/components/EdgeListInput.tsx:76-93 | a well-formed list below n(n−1)/2 edges always has a free pair |
| EdgeListInput.AllPairsSize | src/components/EdgeListInput.tsx:76 | there are n(n−1)/2 pairs i<j in 1..n |
| EdgeListInput.HandleChange | src/components/EdgeListInput.tsx:64-72 | only row idx changes, only in the chosen field, which takes the new value (a weight becomes present); the other two fields of that row are exactly as before, an absent weight staying absent; the length is kept |
| EdgeListInput.ChangeBack | src/components/EdgeListInput.tsx:64-72 | writing back a row's old endpoint restores the list |
| EdgeListInput.Delete | src/components/EdgeListInput.tsx:140 | exactly index idx is removed and the order of the rest is kept; an index outside the list changes nothing |
| EdgeListInput.DeleteKeepsWellFormed | src/components/EdgeListInput.tsx:140 | deleting a row keeps a well-formed list well formed |
| GraphVisualizer.Clamp | src/pages/graph-visualizer.tsx:327 | the clamped value lies in 1..hi, and a value already in range is kept |
| GraphVisualizer.ClampNearest | src/pages/graph-visualizer.tsx:327 | the clamp gives the in-range value nearest to the input, and clamping twice changes nothing |
| GraphVisualizer.StepBack | src/pages/graph-visualizer.tsx:385 | the cursor after "back" is never negative and never past the old one |
| GraphVisualizer.StepForward | src/pages/graph-visualizer.tsx:386 | the cursor after "forward" is at most len − 1 and, from inside the order, never before the old one |
| GraphVisualizer.CanStepBack | src/pages/graph-visualizer.tsx:241 | "back" is enabled exactly when it would move the cursor |
| GraphVisualizer.CanStepForward | src/pages/graph-visualizer.tsx:242 | "forward" is enabled only on a non-empty order, and from inside it exactly when it would move the cursor |
| GraphVisualizer.StepsStayInside | src/pages/graph-visualizer.tsx:385-386 | back `max(0, s−1)` and forward `min(len−1, s+1)` keep the cursor in 0..len−1; `canStepBack` ⟺ back moves and `canStepForward` ⟺ forward moves; a move one way is undone by a move the other way |
| GraphVisualizer.KeepWithin | src/pages/graph-visualizer.tsx:68 | keeps exactly the edges with both endpoints ≤ n, no longer than the input |
| GraphVisualizer.KeepWithinAppend | src/pages/graph-visualizer.tsx:68 | filtering distributes over concatenation, so the order is kept |
| GraphVisualizer.KeepWithinFitting | src/pages/graph-visualizer.tsx:68 | a list whose edges all fit is returned unchanged |
| GraphVisualizer.KeepWithinIdempotent | src/pages/graph-visualizer.tsx:68 | filtering twice is filtering once |
| GraphVisualizer.KeepWithinWellFormed | src/pages/graph-visualizer.tsx:68 | filtering a well-formed list for m vertices gives a well-formed list for n |
| GraphVisualizer.CompletionEdges | src/pages/graph-visualizer.tsx:104-116 | the collected edges are exactly the pairs i<j missing in both orientations, weightless, in lexicographic order |
| GraphVisualizer.CompletionUnique | src/pages/graph-visualizer.tsx:104-116 | only one list has those properties |
| GraphVisualizer.CompletionJoinsAll | src/pages/graph-visualizer.tsx:103-117 | after completion every pair of distinct vertices is joined |
| GraphVisualizer.CompletionWellFormed | src/pages/graph-visualizer.tsx:103-117 | completing a well-formed list gives a well-formed list of exactly n(n−1)/2 edges: every unordered pair once |
| GraphVisualizer.CompletionOfComplete | src/pages/graph-visualizer.tsx:103-117 | completing an already complete list adds nothing |
| GraphVisualizer.EndpointPairs | src/pages/graph-visualizer.tsx:207 | one (from, to) pair per forest edge, in order |
| GraphVisualizer.RunBfs | src/pages/graph-visualizer.tsx:184 | `bfs` on the graph built from the page state returns the BFS order from the start, with all of `Bfs`'s guarantees |
| GraphVisualizer.RunDfs | src/pages/graph-visualizer.tsx:194 | `dfs` on that graph returns the DFS order from the start, with all of `Dfs`'s guarantees |
| GraphVisualizer.RunKruskal | src/pages/graph-visualizer.tsx:206 | `kruskal` on that graph returns `KruskalForest`: a weight-ordered, acyclic, spanning forest of minimum total weight |
| GraphVisualizer.RunColouring | src/pages/graph-visualizer.tsx:215 | `greedyVerticesColoring` on that graph returns a greedy colouring of 1..vertices |
| GraphVisualizer.Visualizer.constructor | src/pages/graph-visualizer.tsx:38-81 | 2 vertices, no edges, unweighted, start 1, no results, cursor 0, manual mode, not playing |
| GraphVisualizer.Visualizer.SetVertexCount | src/pages/graph-visualizer.tsx:67-70 | on a change of vertex count, edges with an endpoint above it are dropped in order and the start becomes min(start, count); a well-formed list stays well formed |
| GraphVisualizer.Visualizer.VertexCountTyped | src/pages/graph-visualizer.tsx:310-313 | the typed count is clamped to 1..50, then the vertex effect runs |
| GraphVisualizer.Visualizer.StartNodeTyped | src/pages/graph-visualizer.tsx:327 | the typed start is clamped to 1..vertices and kept when already in range |
| GraphVisualizer.Visualizer.SetWeighted | src/pages/graph-visualizer.tsx:319 | only the weighted flag changes |
| GraphVisualizer.Visualizer.SetAnimationMode | src/pages/graph-visualizer.tsx:336-339 | sets the mode and stops playback; nothing else changes |
| GraphVisualizer.Visualizer.MakeCompleteGraph | src/pages/graph-visualizer.tsx:103-118 | the old edges are kept first and the completion appended; afterwards every pair is joined, and a well-formed list becomes one with every pair exactly once |
| GraphVisualizer.Visualizer.ClearGraph | src/pages/graph-visualizer.tsx:153-163 | no edges, no results, cursor 0, not playing, unweighted, one vertex, start 1 |
| GraphVisualizer.Visualizer.ResetVisuals | src/pages/graph-visualizer.tsx:165-172 | every result cleared, cursor 0, not playing; the graph untouched |
| GraphVisualizer.Visualizer.HandleBfs | src/pages/graph-visualizer.tsx:183-191 | the order shown is the BFS order from the start vertex, with all BFS guarantees; cursor 0; other results cleared; not playing |
| GraphVisualizer.Visualizer.HandleDfs | src/pages/graph-visualizer.tsx:193-201 | the same with the DFS order |
| GraphVisualizer.Visualizer.HandleKruskal | src/pages/graph-visualizer.tsx:203-211 | playback stops; on an unweighted graph nothing else changes; otherwise the endpoint pairs of the minimum spanning forest are highlighted, the other results cleared and the cursor left as it was |
| GraphVisualizer.Visualizer.HandleColor | src/pages/graph-visualizer.tsx:213-220 | the greedy vertex colouring is shown; the other results cleared; not playing |
| GraphVisualizer.Visualizer.HandleEdgeColoring | src/pages/graph-visualizer.tsx:222-229 | the greedy edge colouring is shown; the other results cleared; not playing |
| GraphVisualizer.Visualizer.StepBackPressed | src/pages/graph-visualizer.tsx:385 | the cursor becomes max(0, s−1); nothing else changes |
| GraphVisualizer.Visualizer.StepForwardPressed | src/pages/graph-visualizer.tsx:386 | the cursor becomes min(len−1, s+1); nothing else changes |
| GraphVisualizer.Visualizer.PlayAuto | src/pages/graph-visualizer.tsx:231-239 | the cursor is set to 0, 1, … in order and stops after the last vertex or at the first step after which playback was stopped; no index is set after that; playback is off at the end |

## Left out

- Rendering and layout are not part of this model: node positions, the circle arrangement, the palette and colour-index mapping, drag handling and `buildNodes` (`src/components/GraphCanvas.tsx`, `src/components/CenterCircleNode.tsx`, `src/utils/graphUtils.ts`, and graph-visualizer.tsx:20-35, 45-65, 83-99, 174-181, 248-253). They are floating-point geometry and React plumbing.
- `src/pages/index.tsx` and `src/components/GraphControls.tsx` are UI scaffolding with no logic.
- `makeRandomGraph` (graph-visualizer.tsx:121-152) is left out because it draws from `Math.random`.
- PlayAuto: the 700 ms pause and the `useRef` flag propagation are left out. The flag is read after each step, and `cancelledAt` stands for "the flag was found cleared after this step". The model does not capture the stop button at lines 374-375, other clicks during playback, or two overlapping playbacks.
- Weights and typed numbers are integers. `Number(value)` can produce NaN or fractions (EdgeListInput.tsx:65, graph-visualizer.tsx:311,327), which the model does not represent.
- EdgeListInput.HandleChange: the typed value is an integer and `idx` must index an existing row (the table only renders existing rows).
- EdgeListInput.EdgeKey: the key string `"min,max"` is modelled as the pair (min, max). Two strings are equal exactly when the pairs are.
- EdgeListInput.Delete: the reindexing of the error map at EdgeListInput.tsx:135-139 is not modelled. The error map is recomputed from the new list by `Validate` whenever the list changes.
- Kruskal.DisjointSet: amortised complexity is not modelled. The ghost fields `rep` (the root of each element) and `depth` (a bound on each path's length) exist only to state the partition and to prove that `find` terminates.
- Kruskal.Kruskal requires every endpoint in 0..vertices, because `parent` has indices 0..vertices. Outside that range the JavaScript reads `undefined` and the behaviour is not meaningful.
- Coloring.GreedyEdgeColoring requires every endpoint in 0..vertices for the same reason (`used` has indices 0..vertices).
- BreadthFirst.Bfs, DepthFirst.Dfs and Coloring.GreedyVerticesColoring require every endpoint in 1..vertices, because `adj[from]` exists only for 1..vertices (Graph.ts:17,19-20). The page handlers carry the same requirement.
- WeightSort.SortSpec: `Array.prototype.sort` is modelled by its result. The ECMAScript language specification requires a stable sort, so the result is the stable insertion sort `SortByWeight`. The engine's own sorting algorithm is not modelled.
- GraphModel.Graph.GetAdjacencyList returns the record as a map from vertex to list, not as a JavaScript object with mutable arrays.
