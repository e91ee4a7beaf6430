/**
 * Greedy colourings (src/graph/algorithms/coloring.ts).
 *
 * Vertex colouring visits the ids 1..vertices in ascending order and gives
 * each the least positive colour not already held by one of its neighbours.
 * Edge colouring visits the edges in list order and gives each the least
 * positive colour not already on an edge at either of its endpoints, keeping
 * one set of colours per vertex.
 */
module Coloring {
  import opened GraphTypes
  import opened GraphModel

  /** `c` is the least positive integer that is not in `used`. */
  predicate LeastFree(used: set<int>, c: int) {
    c >= 1 && c !in used && forall k :: 1 <= k < c ==> k in used
  }

  /** When the colours 1..c-1 are all used, there are at least c-1 of them. */
  lemma {:induction false} RangeBound(used: set<int>, c: int)
    requires c >= 1 && forall k :: 1 <= k < c ==> k in used
    ensures c - 1 <= |used|
    decreases c
  {
    if c > 1 {
      RangeBound(used - {c - 1}, c - 1);
    }
  }

  /** The search `while (used.has(color)) color++` starting from 1. */
  method FirstFree(used: set<int>) returns (color: int)
    ensures LeastFree(used, color)
    ensures color <= |used| + 1
  {
    color := 1;
    while color in used
      invariant 1 <= color <= |used| + 1
      invariant forall k :: 1 <= k < color ==> k in used
      decreases |used| + 1 - color
    {
      RangeBound(used, color + 1);
      color := color + 1;
    }
  }

  // ---------------------------------------------------------------------
  // Vertex colouring
  // ---------------------------------------------------------------------

  /**
   * The colours found on the listed neighbours that already have one. Every
   * stored colour is at least 1, so the source's truthiness test on
   * `colors[u]` is the same as `u` having a colour.
   */
  function UsedColours(colors: map<int, int>, nbrs: seq<int>): (r: set<int>)
    ensures |r| <= |nbrs|
    decreases |nbrs|
  {
    if nbrs == [] then {}
    else
      var u := nbrs[|nbrs| - 1];
      UsedColours(colors, nbrs[..|nbrs| - 1]) + (if u in colors then {colors[u]} else {})
  }

  lemma {:induction false} UsedColoursIff(colors: map<int, int>, nbrs: seq<int>, c: int)
    ensures c in UsedColours(colors, nbrs) <==> exists u :: u in nbrs && u in colors && colors[u] == c
    decreases |nbrs|
  {
    if nbrs != [] {
      var init, u := nbrs[..|nbrs| - 1], nbrs[|nbrs| - 1];
      UsedColoursIff(colors, init, c);
      assert nbrs == init + [u];
    }
  }

  /** The colours of the lower-numbered neighbours of `v`. */
  function EarlierColours(edges: seq<Edge>, colors: map<int, int>, v: int): set<int> {
    set u | u in colors && u < v && EdgeExists(edges, u, v) :: colors[u]
  }

  /** Vertex `v` holds the least positive colour that no lower-numbered neighbour holds. */
  ghost predicate GreedyAt(edges: seq<Edge>, colors: map<int, int>, v: int)
    requires v in colors
  {
    LeastFree(EarlierColours(edges, colors, v), colors[v])
  }

  /**
   * `colors` is the greedy vertex colouring of the graph on 1..n: exactly
   * those ids are coloured, and each greedily.
   */
  ghost predicate IsGreedyColouring(edges: seq<Edge>, n: int, colors: map<int, int>) {
    && (forall v :: v in colors <==> 1 <= v <= n)
    && forall v :: v in colors ==> GreedyAt(edges, colors, v)
  }

  /** While 1..v-1 are coloured, the colours seen on v's list are those of its earlier neighbours. */
  lemma UsedIsEarlier(edges: seq<Edge>, colors: map<int, int>, v: int, c: int)
    requires forall u :: u in colors ==> u < v
    ensures UsedColours(colors, Neighbours(edges, v)) == EarlierColours(edges, colors[v := c], v)
  {
    var nbrs := Neighbours(edges, v);
    forall x | x in UsedColours(colors, nbrs) ensures x in EarlierColours(edges, colors[v := c], v) {
      UsedColoursIff(colors, nbrs, x);
      var u :| u in nbrs && u in colors && colors[u] == x;
      NeighboursIff(edges, v, u);
      EdgeExistsSymmetric(edges, v, u);
    }
    forall x | x in EarlierColours(edges, colors[v := c], v) ensures x in UsedColours(colors, nbrs) {
      var u :| u in colors[v := c] && u < v && EdgeExists(edges, u, v) && colors[v := c][u] == x;
      NeighboursIff(edges, v, u);
      EdgeExistsSymmetric(edges, v, u);
      UsedColoursIff(colors, nbrs, x);
    }
  }

  /** The earlier colours of `v` depend only on the colours of the ids below `v`. */
  lemma EarlierAgree(edges: seq<Edge>, a: map<int, int>, b: map<int, int>, v: int)
    requires forall u :: u < v ==> (u in a <==> u in b)
    requires forall u :: u < v && u in a ==> a[u] == b[u]
    ensures EarlierColours(edges, a, v) == EarlierColours(edges, b, v)
  {
    forall x | x in EarlierColours(edges, a, v) ensures x in EarlierColours(edges, b, v) {
      var u :| u in a && u < v && EdgeExists(edges, u, v) && a[u] == x;
      assert u in b && b[u] == x;
    }
    forall x | x in EarlierColours(edges, b, v) ensures x in EarlierColours(edges, a, v) {
      var u :| u in b && u < v && EdgeExists(edges, u, v) && b[u] == x;
      assert u in a && a[u] == x;
    }
  }

  /** Vertex `u` is coloured greedily, with at most one colour more than the length of its list. */
  ghost predicate GreedyBounded(edges: seq<Edge>, colors: map<int, int>, u: int)
    requires u in colors
  {
    GreedyAt(edges, colors, u) && colors[u] <= |Neighbours(edges, u)| + 1
  }

  /** Vertices 1..m, and no others, are coloured greedily and within the bound. */
  ghost predicate GreedyUpTo(edges: seq<Edge>, colors: map<int, int>, m: int) {
    && (forall u :: u in colors <==> 1 <= u <= m)
    && forall u :: u in colors ==> GreedyBounded(edges, colors, u)
  }

  /** Giving vertex v the least colour missing from its list extends a greedy colouring of 1..v-1. */
  lemma GreedyStep(edges: seq<Edge>, colors: map<int, int>, v: int, c: int)
    requires v >= 1 && GreedyUpTo(edges, colors, v - 1)
    requires LeastFree(UsedColours(colors, Neighbours(edges, v)), c)
    requires c <= |Neighbours(edges, v)| + 1
    ensures GreedyUpTo(edges, colors[v := c], v)
  {
    UsedIsEarlier(edges, colors, v, c);
    assert GreedyBounded(edges, colors[v := c], v);
    GreedyKept(edges, colors, v, c);
  }

  /** Colouring vertex v leaves every lower vertex greedily coloured. */
  lemma GreedyKept(edges: seq<Edge>, colors: map<int, int>, v: int, c: int)
    requires forall u :: u in colors ==> u < v && GreedyBounded(edges, colors, u)
    ensures forall u :: u in colors ==> GreedyBounded(edges, colors[v := c], u)
  {
    forall u | u in colors ensures GreedyBounded(edges, colors[v := c], u) {
      assert GreedyBounded(edges, colors, u);
      EarlierAgree(edges, colors[v := c], colors, u);
    }
  }

  /**
   * One pass of the outer loop: collects the colours on the listed neighbours
   * and searches for the least colour not among them.
   */
  method ColourFor(colors: map<int, int>, nbrs: seq<int>) returns (color: int)
    ensures LeastFree(UsedColours(colors, nbrs), color)
    ensures color <= |nbrs| + 1
  {
    var used: set<int> := {};
    var j := 0;
    while j < |nbrs|
      invariant 0 <= j <= |nbrs|
      invariant used == UsedColours(colors, nbrs[..j])
    {
      var u := nbrs[j];
      if u in colors {
        used := used + {colors[u]};
      }
      assert nbrs[..j + 1][..j] == nbrs[..j];
      j := j + 1;
    }
    assert nbrs[..j] == nbrs;
    color := FirstFree(used);
  }

  /**
   * greedyVerticesColoring: colours 1..vertices in ascending order, each with
   * the least positive colour absent from its already-coloured neighbours.
   */
  method GreedyVerticesColoring(graph: Graph) returns (colors: map<int, int>)
    requires EndpointsWithin(graph.edges, 1, graph.vertices)
    ensures IsGreedyColouring(graph.edges, graph.vertices, colors)
    ensures forall v :: v in colors ==> colors[v] <= |Neighbours(graph.edges, v)| + 1
    ensures LoopFree(graph.edges) ==> forall v :: v in colors ==> colors[v] <= Degree(graph.edges, v) + 1
  {
    colors := map[];
    var adj := graph.GetAdjacencyList();
    var v := 1;
    while v <= graph.vertices
      invariant 1 <= v <= graph.vertices + 1
      invariant GreedyUpTo(graph.edges, colors, v - 1)
    {
      var color := ColourFor(colors, adj[v]);
      GreedyStep(graph.edges, colors, v, color);
      colors := colors[v := color];
      v := v + 1;
    }
    forall u | u in colors
      ensures GreedyAt(graph.edges, colors, u) && colors[u] <= |Neighbours(graph.edges, u)| + 1
      ensures LoopFree(graph.edges) ==> colors[u] <= Degree(graph.edges, u) + 1
    {
      assert GreedyBounded(graph.edges, colors, u);
      if LoopFree(graph.edges) {
        NeighboursLength(graph.edges, u);
      }
    }
  }

  /** The greedy colouring is proper: adjacent distinct vertices get different colours. */
  lemma GreedyColouringProper(edges: seq<Edge>, n: int, colors: map<int, int>, u: int, v: int)
    requires IsGreedyColouring(edges, n, colors)
    requires u in colors && v in colors && u != v && EdgeExists(edges, u, v)
    ensures colors[u] != colors[v]
  {
    EdgeExistsSymmetric(edges, u, v);
    if u < v {
      assert GreedyAt(edges, colors, v);
      assert colors[u] in EarlierColours(edges, colors, v);
    } else {
      assert GreedyAt(edges, colors, u);
      assert colors[v] in EarlierColours(edges, colors, u);
    }
  }

  /** Two greedy colourings of the same graph agree on 1..v. */
  lemma {:induction false} GreedyAgreeUpTo(edges: seq<Edge>, n: int, a: map<int, int>, b: map<int, int>, v: int)
    requires IsGreedyColouring(edges, n, a) && IsGreedyColouring(edges, n, b)
    ensures forall u :: 1 <= u <= v && u <= n ==> a[u] == b[u]
    decreases v
  {
    if v >= 1 {
      GreedyAgreeUpTo(edges, n, a, b, v - 1);
      if v <= n {
        EarlierAgree(edges, a, b, v);
        assert GreedyAt(edges, a, v) && GreedyAt(edges, b, v);
      }
    }
  }

  /** The greedy colouring is determined by the graph: two of them are equal. */
  lemma GreedyColouringUnique(edges: seq<Edge>, n: int, a: map<int, int>, b: map<int, int>)
    requires IsGreedyColouring(edges, n, a) && IsGreedyColouring(edges, n, b)
    ensures a == b
  {
    GreedyAgreeUpTo(edges, n, a, b, n);
    forall u ensures u in a <==> u in b {
      assert u in a <==> 1 <= u <= n;
    }
    assert forall u :: u in a ==> a[u] == b[u];
  }

  function Triangle(): seq<Edge> {
    [Edge(1, 2, None), Edge(2, 3, None), Edge(1, 3, None)]
  }

  /** On the triangle on {1, 2, 3} the greedy colouring is {1: 1, 2: 2, 3: 3}. */
  lemma TriangleColouring(colors: map<int, int>)
    requires IsGreedyColouring(Triangle(), 3, colors)
    ensures colors == map[1 := 1, 2 := 2, 3 := 3]
  {
    var m := map[1 := 1, 2 := 2, 3 := 3];
    TriangleIsGreedy(m);
    GreedyColouringUnique(Triangle(), 3, colors, m);
  }

  lemma TriangleIsGreedy(m: map<int, int>)
    requires m == map[1 := 1, 2 := 2, 3 := 3]
    ensures IsGreedyColouring(Triangle(), 3, m)
  {
    TriangleEarlier(m);

    assert GreedyAt(Triangle(), m, 1) && GreedyAt(Triangle(), m, 2) && GreedyAt(Triangle(), m, 3);
  }

  lemma TriangleEarlier(m: map<int, int>)
    requires m == map[1 := 1, 2 := 2, 3 := 3]
    ensures EarlierColours(Triangle(), m, 1) == {}
    ensures EarlierColours(Triangle(), m, 2) == {1}
    ensures EarlierColours(Triangle(), m, 3) == {1, 2}
  {
    var t := Triangle();
    assert Joins(t[0], 1, 2) && Joins(t[2], 1, 3) && Joins(t[1], 2, 3);
    assert m[1] in EarlierColours(t, m, 2);
    assert m[1] in EarlierColours(t, m, 3) && m[2] in EarlierColours(t, m, 3);
  }

  // ---------------------------------------------------------------------
  // Edge colouring
  // ---------------------------------------------------------------------

  /** The colours of the triples in `out` that have `v` as an endpoint. */
  function IncidentColours(out: seq<(int, int, int)>, v: int): set<int>
    decreases |out|
  {
    if out == [] then {}
    else
      var t := out[|out| - 1];
      IncidentColours(out[..|out| - 1], v) + (if t.0 == v || t.1 == v then {t.2} else {})
  }

  lemma {:induction false} IncidentColoursIff(out: seq<(int, int, int)>, v: int, c: int)
    ensures c in IncidentColours(out, v) <==>
      exists i :: 0 <= i < |out| && (out[i].0 == v || out[i].1 == v) && out[i].2 == c
    decreases |out|
  {
    if out != [] {
      var init := out[..|out| - 1];
      IncidentColoursIff(init, v, c);
      if exists i :: 0 <= i < |out| && (out[i].0 == v || out[i].1 == v) && out[i].2 == c {
        var i :| 0 <= i < |out| && (out[i].0 == v || out[i].1 == v) && out[i].2 == c;
        if i < |init| {
          assert init[i] == out[i];
        }
      }
      if exists i :: 0 <= i < |init| && (init[i].0 == v || init[i].1 == v) && init[i].2 == c {
        var i :| 0 <= i < |init| && (init[i].0 == v || init[i].1 == v) && init[i].2 == c;
        assert out[i] == init[i];
      }
    }
  }

  /**
   * Triple `k` repeats the endpoints of edge `k` and carries the least
   * positive colour not on an earlier triple at either endpoint.
   */
  predicate GreedyEdgeAt(edges: seq<Edge>, out: seq<(int, int, int)>, k: int)
    requires 0 <= k < |out| && k < |edges|
  {
    && out[k].0 == edges[k].from
    && out[k].1 == edges[k].to
    && LeastFree(IncidentColours(out[..k], edges[k].from) + IncidentColours(out[..k], edges[k].to), out[k].2)
  }

  /** `out` is the greedy edge colouring of `edges`, one triple per edge in list order. */
  ghost predicate IsGreedyEdgeColouring(edges: seq<Edge>, out: seq<(int, int, int)>) {
    && |out| == |edges|
    && forall k :: 0 <= k < |out| ==> GreedyEdgeAt(edges, out, k)
  }

  /**
   * greedyEdgeColoring: `used[v]` holds the colours already placed at v; each
   * edge takes the least colour in neither endpoint's set, and that colour is
   * added to both. Endpoints index the array 0..vertices, so they must lie there.
   */
  method GreedyEdgeColoring(edges: seq<Edge>, vertices: nat) returns (edgeColors: seq<(int, int, int)>)
    requires EndpointsWithin(edges, 0, vertices)
    ensures IsGreedyEdgeColouring(edges, edgeColors)
  {
    edgeColors := [];
    var used := new set<int>[vertices + 1](_ => {});
    var k := 0;
    while k < |edges|
      invariant 0 <= k <= |edges| && |edgeColors| == k
      invariant forall i :: 0 <= i < k ==> GreedyEdgeAt(edges, edgeColors, i)
      invariant forall v :: 0 <= v <= vertices ==> used[v] == IncidentColours(edgeColors, v)
    {
      var e := edges[k];
      var color := FirstFree(used[e.from] + used[e.to]);
      ghost var before := edgeColors;
      edgeColors := edgeColors + [(e.from, e.to, color)];
      used[e.from] := used[e.from] + {color};
      used[e.to] := used[e.to] + {color};
      assert edgeColors[..k] == before;
      GreedyEdgeKept(edges, before, (e.from, e.to, color));
      k := k + 1;
    }
  }

  /** Appending a triple leaves the earlier triples greedy. */
  lemma GreedyEdgeKept(edges: seq<Edge>, out: seq<(int, int, int)>, t: (int, int, int))
    requires |out| < |edges|
    requires forall i :: 0 <= i < |out| ==> GreedyEdgeAt(edges, out, i)
    ensures forall i :: 0 <= i < |out| ==> GreedyEdgeAt(edges, out + [t], i)
  {
    forall i | 0 <= i < |out| ensures GreedyEdgeAt(edges, out + [t], i) {
      assert GreedyEdgeAt(edges, out, i);
      assert (out + [t])[..i] == out[..i] && (out + [t])[i] == out[i];
    }
  }

  /** The greedy edge colouring is proper: edges sharing an endpoint get different colours, all positive. */
  lemma EdgeColouringProper(edges: seq<Edge>, out: seq<(int, int, int)>, j: int, k: int, v: int)
    requires IsGreedyEdgeColouring(edges, out)
    requires 0 <= j < k < |out|
    requires (out[j].0 == v || out[j].1 == v) && (out[k].0 == v || out[k].1 == v)
    ensures out[j].2 >= 1 && out[k].2 >= 1 && out[j].2 != out[k].2
  {
    assert GreedyEdgeAt(edges, out, j) && GreedyEdgeAt(edges, out, k);
    var prefix := out[..k];
    assert prefix[j] == out[j];
    IncidentColoursIff(prefix, v, out[j].2);
  }

  /** Only the triples at `v` contribute colours, so there are at most as many as edges at `v`. */
  lemma {:induction false} IncidentBound(edges: seq<Edge>, out: seq<(int, int, int)>, v: int)
    requires |out| == |edges|
    requires forall i :: 0 <= i < |out| ==> out[i].0 == edges[i].from && out[i].1 == edges[i].to
    ensures |IncidentColours(out, v)| <= Degree(edges, v)
    decreases |out|
  {
    if out != [] {
      IncidentBound(edges[..|edges| - 1], out[..|out| - 1], v);
    }
  }

  /** Dropping edges from the end never raises a degree. */
  lemma {:induction false} DegreePrefix(edges: seq<Edge>, k: int, v: int)
    requires 0 <= k <= |edges|
    ensures Degree(edges[..k], v) <= Degree(edges, v)
    decreases |edges| - k
  {
    if k < |edges| {
      DegreePrefix(edges, k + 1, v);
      assert edges[..k + 1][..k] == edges[..k];
    } else {
      assert edges[..k] == edges;
    }
  }

  /**
   * Without loops, the colour of edge (a, b) is at most deg(a) + deg(b) - 1:
   * each earlier edge at a or b blocks at most one colour.
   */
  lemma {:induction false} EdgeColourBound(edges: seq<Edge>, out: seq<(int, int, int)>, k: int)
    requires IsGreedyEdgeColouring(edges, out) && LoopFree(edges)
    requires 0 <= k < |out|
    ensures out[k].2 <= Degree(edges, edges[k].from) + Degree(edges, edges[k].to) - 1
  {
    var a, b := edges[k].from, edges[k].to;
    var prefix, head := out[..k], edges[..k];
    assert GreedyEdgeAt(edges, out, k);
    var A, B := IncidentColours(prefix, a), IncidentColours(prefix, b);
    RangeBound(A + B, out[k].2);
    forall i | 0 <= i < |prefix| ensures prefix[i].0 == head[i].from && prefix[i].1 == head[i].to {
      assert GreedyEdgeAt(edges, out, i);
    }
    IncidentBound(head, prefix, a);
    IncidentBound(head, prefix, b);
    var upto := edges[..k + 1];
    assert upto[..k] == head && upto[k] == edges[k];
    assert a != b;
    DegreePrefix(edges, k + 1, a);
    DegreePrefix(edges, k + 1, b);
  }
}
