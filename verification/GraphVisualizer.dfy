/**
 * The logic of the visualizer page (src/pages/graph-visualizer.tsx): the
 * page's state, the complete-graph button, the effect that runs when the
 * vertex count changes, the clamped inputs, the traversal cursor with its
 * step buttons and auto-play, and the algorithm buttons, which run one
 * algorithm and clear the results of the others.
 */
module GraphVisualizer {
  import opened GraphTypes
  import opened GraphModel
  import opened BreadthFirst
  import opened DepthFirst
  import opened Kruskal
  import opened Coloring
  import opened EdgeListInput

  /** The largest vertex count the vertex-count input accepts. */
  const MaxVertices := 50

  function Min(a: int, b: int): int { if a <= b then a else b }

  function Max(a: int, b: int): int { if a >= b then a else b }

  function Dist(a: int, b: int): nat { if a <= b then b - a else a - b }

  // ---------------------------------------------------------------------
  // The clamped inputs
  // ---------------------------------------------------------------------

  /**
   * `Math.max(1, Math.min(hi, x))`: the vertex-count input uses hi = 50,
   * the start-vertex input the current vertex count.
   */
  function Clamp(x: int, hi: int): (r: int)
    ensures 1 <= r
    ensures hi >= 1 ==> r <= hi
    ensures 1 <= x <= hi ==> r == x
  {
    Max(1, Min(hi, x))
  }

  /** The clamped value is the point of 1..hi nearest to the typed one, and clamping twice changes nothing. */
  lemma ClampNearest(x: int, hi: int, y: int)
    requires 1 <= y <= hi
    ensures Dist(x, Clamp(x, hi)) <= Dist(x, y)
    ensures Clamp(Clamp(x, hi), hi) == Clamp(x, hi)
  {
  }

  // ---------------------------------------------------------------------
  // The traversal cursor
  // ---------------------------------------------------------------------

  /** The "back" button's updater, `Math.max(0, s - 1)`. */
  function StepBack(s: int): (r: int)
    ensures 0 <= r
    ensures s >= 0 ==> r <= s
  {
    Max(0, s - 1)
  }

  /** The "forward" button's updater, `Math.min(len - 1, s + 1)`. */
  function StepForward(s: int, len: int): (r: int)
    ensures r <= len - 1
    ensures s < len ==> s <= r
  {
    Min(len - 1, s + 1)
  }

  /** `canStepBack`: the "back" button is enabled exactly when it would move a cursor at or past the start. */
  function CanStepBack(s: int): (b: bool)
    ensures s >= 0 ==> (b <==> StepBack(s) != s)
  {
    s > 0
  }

  /**
   * `canStepForward`: the "forward" button is enabled exactly when it would
   * move a cursor inside a non-empty order, and never on an empty one.
   */
  function CanStepForward(s: int, len: int): (b: bool)
    ensures b ==> len > 0
    ensures 0 <= s < len ==> (b <==> StepForward(s, len) != s)
  {
    len > 0 && s < len - 1
  }

  /**
   * On a cursor inside the order, both buttons keep it inside; each one is
   * enabled exactly when it would move the cursor, and a step forward is
   * undone by a step back and the other way round.
   */
  lemma StepsStayInside(s: int, len: int)
    requires 0 <= s < len
    ensures 0 <= StepBack(s) < len && 0 <= StepForward(s, len) < len
    ensures CanStepBack(s) <==> StepBack(s) != s
    ensures CanStepForward(s, len) <==> StepForward(s, len) != s
    ensures CanStepBack(s) ==> StepBack(s) == s - 1 && StepForward(StepBack(s), len) == s
    ensures CanStepForward(s, len) ==> StepForward(s, len) == s + 1 && StepBack(StepForward(s, len)) == s
  {
  }

  // ---------------------------------------------------------------------
  // The vertex-count effect
  // ---------------------------------------------------------------------

  predicate Fits(e: Edge, n: int) {
    e.from <= n && e.to <= n
  }

  /** `edges.filter(e => e.from <= n && e.to <= n)`. */
  function KeepWithin(edges: seq<Edge>, n: int): (r: seq<Edge>)
    ensures |r| <= |edges|
    ensures forall e :: e in r <==> e in edges && Fits(e, n)
  {
    if edges == [] then []
    else
      var last := edges[|edges| - 1];
      KeepWithin(edges[..|edges| - 1], n) + (if Fits(last, n) then [last] else [])
  }

  /** The filter works row by row, so it keeps the order of the rows it keeps. */
  lemma {:induction false} KeepWithinAppend(a: seq<Edge>, b: seq<Edge>, n: int)
    ensures KeepWithin(a + b, n) == KeepWithin(a, n) + KeepWithin(b, n)
    decreases |b|
  {
    if b == [] {
      assert a + b == a;
    } else {
      var b' := b[..|b| - 1];
      assert (a + b)[..|a + b| - 1] == a + b';
      KeepWithinAppend(a, b', n);
    }
  }

  /** A list that already fits is left alone; in particular the filter is idempotent. */
  lemma {:induction false} KeepWithinFitting(edges: seq<Edge>, n: int)
    requires forall e :: e in edges ==> Fits(e, n)
    ensures KeepWithin(edges, n) == edges
    decreases |edges|
  {
    if edges != [] {
      var init := edges[..|edges| - 1];
      assert edges == init + [edges[|edges| - 1]];
      KeepWithinFitting(init, n);
    }
  }

  lemma KeepWithinIdempotent(edges: seq<Edge>, n: int)
    ensures KeepWithin(KeepWithin(edges, n), n) == KeepWithin(edges, n)
  {
    KeepWithinFitting(KeepWithin(edges, n), n);
  }

  /** Shrinking or growing the vertex count keeps a well-formed list well formed. */
  lemma {:induction false} KeepWithinWellFormed(edges: seq<Edge>, m: int, n: int)
    requires WellFormed(edges, m)
    ensures WellFormed(KeepWithin(edges, n), n)
    decreases |edges|
  {
    if edges != [] {
      var init := edges[..|edges| - 1];
      assert WellFormed(init, m);
      KeepWithinWellFormed(init, m, n);
      if Fits(edges[|edges| - 1], n) {
        KeepWithinStep(edges, m, n);
      }
    }
  }

  /** Keeping the last row of a well-formed list after a well-formed filtered prefix. */
  lemma KeepWithinStep(edges: seq<Edge>, m: int, n: int)
    requires edges != [] && WellFormed(edges, m) && Fits(edges[|edges| - 1], n)
    requires WellFormed(KeepWithin(edges[..|edges| - 1], n), n)
    ensures WellFormed(KeepWithin(edges, n), n)
  {
    var init, last := edges[..|edges| - 1], edges[|edges| - 1];
    var r0 := KeepWithin(init, n);
    var r := r0 + [last];
    assert KeepWithin(edges, n) == r;
    forall a | 0 <= a < |r0| ensures Key(r0[a]) != Key(last) {
      assert r0[a] in init;
      var k :| 0 <= k < |init| && init[k] == r0[a];
      assert edges[k] == r0[a];
    }
    assert 1 <= last.from <= n && 1 <= last.to <= n && last.from != last.to;
  }

  // ---------------------------------------------------------------------
  // The complete-graph button
  // ---------------------------------------------------------------------

  /** (i, j), i < j, is a pair of 1..n that no edge joins in either orientation. */
  ghost predicate Missing(edges: seq<Edge>, n: int, i: int, j: int) {
    1 <= i < j <= n && !EdgeExists(edges, i, j)
  }

  /** Strictly increasing in the lexicographic order of (from, to). */
  predicate LexSorted(s: seq<Edge>) {
    forall a, b :: 0 <= a < b < |s| ==> PairBefore(s[a].from, s[a].to, s[b].from, s[b].to)
  }

  /**
   * `added` lists, in lexicographic order and without weights, exactly the
   * pairs of 1..n that `edges` misses.
   */
  ghost predicate IsCompletion(edges: seq<Edge>, n: int, added: seq<Edge>) {
    && (forall k :: 0 <= k < |added| ==> added[k].weight == None && Missing(edges, n, added[k].from, added[k].to))
    && (forall i, j :: Missing(edges, n, i, j) ==> Edge(i, j, None) in added)
    && LexSorted(added)
  }

  /** The loop invariant: the pairs before (i, j) have been dealt with. */
  ghost predicate CompletedBefore(edges: seq<Edge>, n: int, added: seq<Edge>, i: int, j: int) {
    && (forall k :: 0 <= k < |added| ==>
          added[k].weight == None && Missing(edges, n, added[k].from, added[k].to)
          && PairBefore(added[k].from, added[k].to, i, j))
    && (forall a, b :: Missing(edges, n, a, b) && PairBefore(a, b, i, j) ==> Edge(a, b, None) in added)
    && LexSorted(added)
  }

  /**
   * makeCompleteGraph's loops: every pair (i, j), 1 <= i < j <= vertices,
   * in lexicographic order, that no edge joins in either orientation.
   */
  method CompletionEdges(edges: seq<Edge>, vertices: int) returns (added: seq<Edge>)
    ensures IsCompletion(edges, vertices, added)
  {
    added := [];
    var i := 1;
    while i <= vertices
      invariant 1 <= i
      invariant CompletedBefore(edges, vertices, added, i, i + 1)
    {
      var j := i + 1;
      while j <= vertices
        invariant i + 1 <= j <= vertices + 1
        invariant CompletedBefore(edges, vertices, added, i, j)
      {
        if !EdgeExists(edges, i, j) {
          added := added + [Edge(i, j, None)];
        }
        j := j + 1;
      }
      i := i + 1;
    }
  }

  /** Two lexicographically sorted lists with the same elements are the same list. */
  lemma {:induction false} LexSortedUnique(a: seq<Edge>, b: seq<Edge>)
    requires LexSorted(a) && LexSorted(b)
    requires forall e :: e in a <==> e in b
    ensures a == b
    decreases |a|
  {
    assert a != [] ==> a[0] in b;
    assert b != [] ==> b[0] in a;
    if a != [] && b != [] {
      assert a[0] in b && b[0] in a;
      var k :| 0 <= k < |b| && b[k] == a[0];
      var m :| 0 <= m < |a| && a[m] == b[0];
      SortedFirst(a, m);
      SortedFirst(b, k);
      assert a[0] == b[0];
      forall e ensures e in a[1..] <==> e in b[1..] {
        if e in a[1..] {
          var p :| 1 <= p < |a| && a[p] == e;
          assert PairBefore(a[0].from, a[0].to, e.from, e.to);
          assert e in b;
          var q :| 0 <= q < |b| && b[q] == e;
          assert q != 0;
        }
        if e in b[1..] {
          var q :| 1 <= q < |b| && b[q] == e;
          assert PairBefore(b[0].from, b[0].to, e.from, e.to);
          assert e in a;
          var p :| 0 <= p < |a| && a[p] == e;
          assert p != 0;
        }
      }
      LexSortedUnique(a[1..], b[1..]);
      assert a == [a[0]] + a[1..] && b == [b[0]] + b[1..];
    }
  }

  lemma SortedFirst(s: seq<Edge>, k: int)
    requires LexSorted(s) && 0 <= k < |s|
    ensures k == 0 || PairBefore(s[0].from, s[0].to, s[k].from, s[k].to)
  {
  }

  /** The edges the button adds are determined by the list it starts from. */
  lemma CompletionUnique(edges: seq<Edge>, n: int, a: seq<Edge>, b: seq<Edge>)
    requires IsCompletion(edges, n, a) && IsCompletion(edges, n, b)
    ensures a == b
  {
    forall e ensures e in a <==> e in b {
      if e in a {
        var k :| 0 <= k < |a| && a[k] == e;
        assert Missing(edges, n, e.from, e.to);
      }
      if e in b {
        var k :| 0 <= k < |b| && b[k] == e;
        assert Missing(edges, n, e.from, e.to);
      }
    }
    LexSortedUnique(a, b);
  }

  /** After the button every pair of distinct vertices is joined. */
  lemma CompletionJoinsAll(edges: seq<Edge>, n: int, added: seq<Edge>)
    requires IsCompletion(edges, n, added)
    ensures NoFreePair(edges + added, n)
  {
    var r := edges + added;
    forall a, b | 1 <= a < b <= n ensures EdgeExists(r, a, b) {
      if EdgeExists(edges, a, b) {
        var i :| 0 <= i < |edges| && Joins(edges[i], a, b);
        assert Joins(r[i], a, b);
      } else {
        assert Missing(edges, n, a, b);
        var k :| 0 <= k < |added| && added[k] == Edge(a, b, None);
        assert Joins(r[|edges| + k], a, b);
      }
    }
  }

  /**
   * On a list without invalid or repeated rows, the button gives a list in
   * which every pair of distinct vertices occurs exactly once: it is well
   * formed, joins every pair and has n(n-1)/2 rows.
   */
  lemma CompletionWellFormed(edges: seq<Edge>, n: nat, added: seq<Edge>)
    requires IsCompletion(edges, n, added) && WellFormed(edges, n)
    ensures WellFormed(edges + added, n)
    ensures |edges + added| == MaxEdges(n)
  {
    var r := edges + added;
    forall a, b | 0 <= a < b < |r| ensures Key(r[a]) != Key(r[b]) {
      if b >= |edges| {
        var y := added[b - |edges|];
        assert Missing(edges, n, y.from, y.to);
        assert Key(r[b]) == (y.from, y.to);
        if a >= |edges| {
          var x := added[a - |edges|];
          assert Missing(edges, n, x.from, x.to);
          assert PairBefore(x.from, x.to, y.from, y.to);
        } else if Key(r[a]) == Key(r[b]) {
          assert Joins(edges[a], y.from, y.to);
        }
      }
    }
    forall k | 0 <= k < |r| ensures 1 <= r[k].from <= n && 1 <= r[k].to <= n && r[k].from != r[k].to {
      if k >= |edges| {
        assert Missing(edges, n, added[k - |edges|].from, added[k - |edges|].to);
      }
    }
    assert WellFormed(r, n);
    CompletionJoinsAll(edges, n, added);
    forall p | p in KeysOf(r) ensures p in AllPairs(n) {
      KeysOfMembers(r, p);
      var k :| 0 <= k < |r| && Key(r[k]) == p;
      assert p == (Min(r[k].from, r[k].to), Max(r[k].from, r[k].to));
    }
    forall p | p in AllPairs(n) ensures p in KeysOf(r) {
      var a, b :| 1 <= a < b <= n && p == (a, b);
      assert EdgeExists(r, a, b);
      var k :| 0 <= k < |r| && Joins(r[k], a, b);
      assert Key(r[k]) == p;
      KeysOfContains(r, k);
    }
    assert KeysOf(r) == AllPairs(n);
    AllPairsSize(n);
    DistinctKeys(r, n);
  }

  /** Pressing the button on a complete list adds nothing. */
  lemma CompletionOfComplete(edges: seq<Edge>, n: int, added: seq<Edge>)
    requires IsCompletion(edges, n, added) && NoFreePair(edges, n)
    ensures added == []
  {
    assert added != [] ==> Missing(edges, n, added[0].from, added[0].to);
  }

  // ---------------------------------------------------------------------
  // The page
  // ---------------------------------------------------------------------

  /** Each edge of Kruskal's forest as the (from, to) pair the canvas highlights. */
  function EndpointPairs(f: seq<Edge>): (r: seq<(int, int)>)
    ensures |r| == |f|
    ensures forall k :: 0 <= k < |f| ==> r[k] == (f[k].from, f[k].to)
  {
    seq(|f|, k requires 0 <= k < |f| => (f[k].from, f[k].to))
  }

  // The page builds `new Graph({ vertices, edges, isWeighted })` on every
  // render and hands it to the algorithm a button runs.

  method RunBfs(data: GraphData, start: int) returns (order: seq<int>)
    requires EndpointsWithin(data.edges, 1, data.vertices) && 1 <= start <= data.vertices
    ensures order == BfsOrder(data.edges, data.vertices, start)
    ensures IsBfsOutput(data.edges, data.vertices, start, order)
  {
    var graph := new Graph(data);
    order := Bfs(graph, start);
  }

  method RunDfs(data: GraphData, start: int) returns (order: seq<int>)
    requires EndpointsWithin(data.edges, 1, data.vertices) && 1 <= start <= data.vertices
    ensures order == DfsOrder(data.edges, data.vertices, start)
    ensures IsDfsOutput(data.edges, data.vertices, start, order)
  {
    var graph := new Graph(data);
    order := Dfs(graph, start);
  }

  method RunKruskal(data: GraphData) returns (mst: seq<Edge>)
    requires EndpointsWithin(data.edges, 0, data.vertices)
    ensures mst == KruskalForest(data.edges)
    ensures IsKruskalOutput(data.edges, mst)
    ensures IsMinimumSpanningForest(data.edges, mst)
  {
    var graph := new Graph(data);
    mst := Kruskal.Kruskal(graph);
  }

  method RunColouring(vertices: nat, edges: seq<Edge>, isWeighted: bool) returns (colors: map<int, int>)
    requires EndpointsWithin(edges, 1, vertices)
    ensures IsGreedyColouring(edges, vertices, colors)
  {
    var graph := new Graph(GraphData(vertices, edges, isWeighted));
    colors := GreedyVerticesColoring(graph);
  }

  /** The page's state: the graph being edited, the start vertex and the results shown. */
  class Visualizer {
    var vertices: int
    var edges: seq<Edge>
    var isWeighted: bool
    var startNode: int
    var animOrder: seq<int>
    var animStep: int
    var isAutoAnim: bool
    var isPlaying: bool
    var highlightEdges: seq<(int, int)>
    var edgeColoring: seq<(int, int, int)>
    var coloring: map<int, int>

    /**
     * The vertex count is one the input allows, the start vertex is one of
     * the vertices, and while there is an order to show the cursor points
     * into it.
     */
    ghost predicate Valid()
      reads this
    {
      && 1 <= vertices <= MaxVertices
      && 1 <= startNode <= vertices
      && 0 <= animStep
      && (animOrder != [] ==> animStep < |animOrder|)
    }

    /** The results of the algorithm buttons. */
    ghost function Results(): (seq<int>, seq<(int, int)>, seq<(int, int, int)>, map<int, int>)
      reads this
    {
      (animOrder, highlightEdges, edgeColoring, coloring)
    }

    /** The graph and the start vertex. */
    ghost function Input(): (int, seq<Edge>, bool, int)
      reads this
    {
      (vertices, edges, isWeighted, startNode)
    }

    constructor ()
      ensures Valid()
      ensures vertices == 2 && edges == [] && !isWeighted && startNode == 1
      ensures animOrder == [] && animStep == 0 && !isAutoAnim && !isPlaying
      ensures highlightEdges == [] && edgeColoring == [] && coloring == map[]
    {
      vertices := 2;
      edges := [];
      isWeighted := false;
      startNode := 1;
      animOrder := [];
      animStep := 0;
      isAutoAnim := false;
      isPlaying := false;
      highlightEdges := [];
      edgeColoring := [];
      coloring := map[];
    }

    /**
     * A new vertex count; when it differs from the current one the effect
     * drops the edges with an endpoint above it and lowers the start vertex
     * to it if need be.
     */
    method SetVertexCount(v: int)
      requires Valid() && 1 <= v <= MaxVertices
      modifies this
      ensures Valid()
      ensures vertices == v
      ensures edges == if v == old(vertices) then old(edges) else KeepWithin(old(edges), v)
      ensures startNode == Min(old(startNode), v)
      ensures WellFormed(old(edges), old(vertices)) ==> WellFormed(edges, v)
      ensures Results() == old(Results()) && animStep == old(animStep)
      ensures isWeighted == old(isWeighted) && isAutoAnim == old(isAutoAnim) && isPlaying == old(isPlaying)
    {
      if v != vertices {
        if WellFormed(edges, vertices) {
          KeepWithinWellFormed(edges, vertices, v);
        }
        vertices := v;
        edges := KeepWithin(edges, v);
        startNode := Min(startNode, v);
      }
    }

    /** The vertex-count input: the typed number, clamped to 1..50. */
    method VertexCountTyped(x: int)
      requires Valid()
      modifies this
      ensures Valid()
      ensures vertices == Clamp(x, MaxVertices)
      ensures edges == if vertices == old(vertices) then old(edges) else KeepWithin(old(edges), vertices)
      ensures startNode == Min(old(startNode), vertices)
      ensures Results() == old(Results()) && animStep == old(animStep)
      ensures isWeighted == old(isWeighted) && isAutoAnim == old(isAutoAnim) && isPlaying == old(isPlaying)
    {
      SetVertexCount(Clamp(x, MaxVertices));
    }

    /** The start-vertex input: the typed number, clamped to 1..vertices. */
    method StartNodeTyped(x: int)
      requires Valid()
      modifies this
      ensures Valid()
      ensures startNode == Clamp(x, vertices)
      ensures 1 <= x <= vertices ==> startNode == x
      ensures vertices == old(vertices) && edges == old(edges) && isWeighted == old(isWeighted)
      ensures Results() == old(Results()) && animStep == old(animStep)
      ensures isAutoAnim == old(isAutoAnim) && isPlaying == old(isPlaying)
    {
      startNode := Clamp(x, vertices);
    }

    method SetWeighted(w: bool)
      requires Valid()
      modifies this
      ensures Valid()
      ensures isWeighted == w
      ensures vertices == old(vertices) && edges == old(edges) && startNode == old(startNode)
      ensures Results() == old(Results()) && animStep == old(animStep)
      ensures isAutoAnim == old(isAutoAnim) && isPlaying == old(isPlaying)
    {
      isWeighted := w;
    }

    /** Choosing manual or automatic animation stops any playback. */
    method SetAnimationMode(auto: bool)
      requires Valid()
      modifies this
      ensures Valid()
      ensures isAutoAnim == auto && !isPlaying
      ensures Input() == old(Input()) && Results() == old(Results()) && animStep == old(animStep)
    {
      isAutoAnim := auto;
      isPlaying := false;
    }

    /**
     * makeCompleteGraph: appends, after the current rows, every missing pair
     * of distinct vertices in lexicographic order.
     */
    method MakeCompleteGraph() returns (added: seq<Edge>)
      requires Valid()
      modifies this
      ensures Valid()
      ensures IsCompletion(old(edges), vertices, added)
      ensures edges == old(edges) + added
      ensures NoFreePair(edges, vertices)
      ensures WellFormed(old(edges), vertices) ==> WellFormed(edges, vertices) && |edges| == MaxEdges(vertices)
      ensures vertices == old(vertices) && isWeighted == old(isWeighted) && startNode == old(startNode)
      ensures Results() == old(Results()) && animStep == old(animStep)
      ensures isAutoAnim == old(isAutoAnim) && isPlaying == old(isPlaying)
    {
      added := CompletionEdges(edges, vertices);
      CompletionJoinsAll(edges, vertices, added);
      if WellFormed(edges, vertices) {
        CompletionWellFormed(edges, vertices, added);
      }
      edges := edges + added;
    }

    /** clearGraph: no edges, no results, unweighted, a single vertex. */
    method ClearGraph()
      requires Valid()
      modifies this
      ensures Valid()
      ensures vertices == 1 && edges == [] && !isWeighted && startNode == 1
      ensures animOrder == [] && animStep == 0 && !isPlaying
      ensures highlightEdges == [] && edgeColoring == [] && coloring == map[]
      ensures isAutoAnim == old(isAutoAnim)
    {
      edges := [];
      animOrder := [];
      animStep := 0;
      highlightEdges := [];
      edgeColoring := [];
      coloring := map[];
      isPlaying := false;
      isWeighted := false;
      SetVertexCount(1);
    }

    /** resetVisuals: every result cleared, the cursor back at 0, playback stopped. */
    method ResetVisuals()
      requires Valid()
      modifies this
      ensures Valid()
      ensures animOrder == [] && animStep == 0 && !isPlaying
      ensures highlightEdges == [] && edgeColoring == [] && coloring == map[]
      ensures Input() == old(Input()) && isAutoAnim == old(isAutoAnim)
    {
      animOrder := [];
      animStep := 0;
      highlightEdges := [];
      edgeColoring := [];
      coloring := map[];
      isPlaying := false;
    }

    /** handleBFS: the BFS order from the start vertex becomes the order shown, from its first vertex. */
    method HandleBfs()
      requires Valid() && EndpointsWithin(edges, 1, vertices)
      modifies this
      ensures Valid()
      ensures vertices == old(vertices) && edges == old(edges) && startNode == old(startNode)
      ensures animOrder == BfsOrder(edges, vertices, startNode)
      ensures IsBfsOutput(edges, vertices, startNode, animOrder)
      ensures animStep == 0 && !isPlaying
      ensures highlightEdges == [] && edgeColoring == [] && coloring == map[]
      ensures Input() == old(Input()) && isAutoAnim == old(isAutoAnim)
    {
      var order := RunBfs(GraphData(vertices, edges, isWeighted), startNode);
      animOrder := order;
      animStep := 0;
      highlightEdges := [];
      edgeColoring := [];
      coloring := map[];
      isPlaying := false;
    }

    /** handleDFS: the same for the DFS order. */
    method HandleDfs()
      requires Valid() && EndpointsWithin(edges, 1, vertices)
      modifies this
      ensures Valid()
      ensures vertices == old(vertices) && edges == old(edges) && startNode == old(startNode)
      ensures animOrder == DfsOrder(edges, vertices, startNode)
      ensures IsDfsOutput(edges, vertices, startNode, animOrder)
      ensures animStep == 0 && !isPlaying
      ensures highlightEdges == [] && edgeColoring == [] && coloring == map[]
      ensures Input() == old(Input()) && isAutoAnim == old(isAutoAnim)
    {
      var order := RunDfs(GraphData(vertices, edges, isWeighted), startNode);
      animOrder := order;
      animStep := 0;
      highlightEdges := [];
      edgeColoring := [];
      coloring := map[];
      isPlaying := false;
    }

    /**
     * handleKruskal: stops playback; on an unweighted graph that is all,
     * otherwise the forest's edges are highlighted and the other results
     * cleared. The cursor is left where it was.
     */
    method HandleKruskal()
      requires Valid() && (isWeighted ==> EndpointsWithin(edges, 0, vertices))
      modifies this
      ensures Valid()
      ensures !isPlaying
      ensures !isWeighted ==> Results() == old(Results())
      ensures isWeighted ==> highlightEdges == EndpointPairs(KruskalForest(edges))
      ensures isWeighted ==> IsKruskalOutput(edges, KruskalForest(edges))
      ensures isWeighted ==> IsMinimumSpanningForest(edges, KruskalForest(edges))
      ensures isWeighted ==> animOrder == [] && edgeColoring == [] && coloring == map[]
      ensures Input() == old(Input()) && animStep == old(animStep) && isAutoAnim == old(isAutoAnim)
    {
      isPlaying := false;
      if !isWeighted {
        return;
      }
      var mst := RunKruskal(GraphData(vertices, edges, isWeighted));
      highlightEdges := EndpointPairs(mst);
      animOrder := [];
      edgeColoring := [];
      coloring := map[];
    }

    /** handleColor: the greedy vertex colouring is shown; the other results are cleared. */
    method HandleColor()
      requires Valid() && EndpointsWithin(edges, 1, vertices)
      modifies this
      ensures Valid()
      ensures IsGreedyColouring(edges, vertices, coloring)
      ensures animOrder == [] && edgeColoring == [] && highlightEdges == [] && !isPlaying
      ensures Input() == old(Input()) && animStep == old(animStep) && isAutoAnim == old(isAutoAnim)
    {
      isPlaying := false;
      var colors := RunColouring(vertices, edges, isWeighted);
      coloring := colors;
      animOrder := [];
      edgeColoring := [];
      highlightEdges := [];
    }

    /** handleEdgeColoring: the greedy edge colouring is shown; the other results are cleared. */
    method HandleEdgeColoring()
      requires Valid() && EndpointsWithin(edges, 0, vertices)
      modifies this
      ensures Valid()
      ensures IsGreedyEdgeColouring(edges, edgeColoring)
      ensures highlightEdges == [] && animOrder == [] && coloring == map[] && !isPlaying
      ensures Input() == old(Input()) && animStep == old(animStep) && isAutoAnim == old(isAutoAnim)
    {
      isPlaying := false;
      var colored := GreedyEdgeColoring(edges, vertices);
      edgeColoring := colored;
      highlightEdges := [];
      animOrder := [];
      coloring := map[];
    }

    /** The "back" button, shown only while there is an order. */
    method StepBackPressed()
      requires Valid() && animOrder != []
      modifies this
      ensures Valid()
      ensures animStep == StepBack(old(animStep))
      ensures Input() == old(Input()) && Results() == old(Results())
      ensures isAutoAnim == old(isAutoAnim) && isPlaying == old(isPlaying)
    {
      StepsStayInside(animStep, |animOrder|);
      animStep := StepBack(animStep);
    }

    /** The "forward" button, shown only while there is an order. */
    method StepForwardPressed()
      requires Valid() && animOrder != []
      modifies this
      ensures Valid()
      ensures animStep == StepForward(old(animStep), |animOrder|)
      ensures Input() == old(Input()) && Results() == old(Results())
      ensures isAutoAnim == old(isAutoAnim) && isPlaying == old(isPlaying)
    {
      StepsStayInside(animStep, |animOrder|);
      animStep := StepForward(animStep, |animOrder|);
    }

    /**
     * playAuto over the order shown. `cancelledAt` holds the steps after
     * whose pause playback had been stopped; `shown` is the sequence of
     * cursor positions set. The cursor visits 0, 1, ... in order and stops
     * after the last vertex or after the first step at which playback had
     * been stopped; playback is off at the end.
     */
    method PlayAuto(cancelledAt: set<int>) returns (shown: seq<int>)
      requires Valid()
      modifies this
      ensures Valid()
      ensures |shown| <= |animOrder|
      ensures forall k :: 0 <= k < |shown| ==> shown[k] == k
      ensures animOrder != [] ==> shown != []
      ensures forall k :: 0 <= k < |shown| - 1 ==> k !in cancelledAt
      ensures |shown| == |animOrder| || |shown| - 1 in cancelledAt
      ensures animStep == if shown == [] then old(animStep) else |shown| - 1
      ensures !isPlaying
      ensures Input() == old(Input()) && Results() == old(Results()) && isAutoAnim == old(isAutoAnim)
    {
      isPlaying := true;
      shown := [];
      var i := 0;
      while i < |animOrder|
        invariant 0 <= i <= |animOrder| && |shown| == i
        invariant forall k :: 0 <= k < i ==> shown[k] == k && k !in cancelledAt
        invariant animStep == if i == 0 then old(animStep) else i - 1
        invariant Input() == old(Input()) && Results() == old(Results()) && isAutoAnim == old(isAutoAnim)
      {
        animStep := i;
        shown := shown + [i];
        if i in cancelledAt {
          break;
        }
        i := i + 1;
      }
      isPlaying := false;
    }
  }
}
