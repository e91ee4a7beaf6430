/**
 * The graph object and its adjacency list (src/graph/Graph.ts). The
 * adjacency list maps each vertex 1..vertices to the neighbours pushed onto
 * it while scanning the edge list: for an edge (from, to), `to` is appended
 * to from's list and `from` to to's list.
 */
module GraphModel {
  import opened GraphTypes

  /** What one edge appends to the list of `v`: first `to` (if v is `from`), then `from` (if v is `to`). */
  function Contribution(e: Edge, v: int): seq<int> {
    (if e.from == v then [e.to] else []) + (if e.to == v then [e.from] else [])
  }

  /** The neighbour list of `v` after scanning `edges`, in edge-insertion order. */
  function Neighbours(edges: seq<Edge>, v: int): seq<int>
    decreases |edges|
  {
    if edges == [] then [] else Neighbours(edges[..|edges| - 1], v) + Contribution(edges[|edges| - 1], v)
  }

  /** The number of edges incident to `v` (a loop counts once). */
  function Degree(edges: seq<Edge>, v: int): nat
    decreases |edges|
  {
    if edges == [] then 0
    else
      var e := edges[|edges| - 1];
      Degree(edges[..|edges| - 1], v) + (if e.from == v || e.to == v then 1 else 0)
  }

  /** The sum of the lengths of the lists of vertices 1..m. */
  function NeighbourTotal(edges: seq<Edge>, m: int): int
    decreases m
  {
    if m <= 0 then 0 else NeighbourTotal(edges, m - 1) + |Neighbours(edges, m)|
  }

  class Graph {
    const vertices: nat
    const edges: seq<Edge>
    const isWeighted: bool

    constructor (data: GraphData)
      ensures vertices == data.vertices && edges == data.edges && isWeighted == data.isWeighted
    {
      vertices := data.vertices;
      edges := data.edges;
      isWeighted := data.isWeighted;
    }

    /**
     * Builds the adjacency record. Every endpoint must be a vertex: the
     * list of an endpoint outside 1..vertices does not exist.
     */
    method GetAdjacencyList() returns (adj: map<int, seq<int>>)
      requires EndpointsWithin(edges, 1, vertices)
      ensures adj.Keys == VertexSet(vertices)
      ensures forall v :: v in adj ==> adj[v] == Neighbours(edges, v)
      ensures edges == [] ==> forall v :: v in adj ==> adj[v] == []
    {
      adj := map[];
      var i := 1;
      while i <= vertices
        invariant 1 <= i <= vertices + 1
        invariant forall v :: v in adj <==> 1 <= v < i
        invariant forall v :: v in adj ==> adj[v] == []
      {
        adj := adj[i := []];
        i := i + 1;
      }
      var k := 0;
      while k < |edges|
        invariant 0 <= k <= |edges|
        invariant forall v :: v in adj <==> 1 <= v <= vertices
        invariant forall v :: v in adj ==> adj[v] == Neighbours(edges[..k], v)
      {
        var e := edges[k];
        ghost var before := adj;
        assert edges[..k + 1][..k] == edges[..k] && edges[..k + 1][k] == e;
        adj := adj[e.from := adj[e.from] + [e.to]];
        adj := adj[e.to := adj[e.to] + [e.from]];
        forall v | v in adj ensures adj[v] == Neighbours(edges[..k + 1], v) {
          assert Neighbours(edges[..k + 1], v) == before[v] + Contribution(e, v);
        }
        k := k + 1;
      }
      assert edges[..k] == edges;
    }
  }

  /** `w` is in the list of `v` exactly when some edge joins v and w (symmetry and soundness). */
  lemma {:induction false} NeighboursIff(edges: seq<Edge>, v: int, w: int)
    ensures w in Neighbours(edges, v) <==> EdgeExists(edges, v, w)
    decreases |edges|
  {
    if edges != [] {
      var init, e := edges[..|edges| - 1], edges[|edges| - 1];
      NeighboursIff(init, v, w);
      EdgeExistsAppend(init, e, v, w);
      assert init + [e] == edges;
    } else {
      assert !EdgeExists(edges, v, w);
    }
  }

  /** With every endpoint a vertex, every listed neighbour is a vertex. */
  lemma NeighboursWithin(edges: seq<Edge>, n: int, v: int)
    requires EndpointsWithin(edges, 1, n)
    ensures forall w :: w in Neighbours(edges, v) ==> 1 <= w <= n
  {
    forall w | w in Neighbours(edges, v) ensures 1 <= w <= n {
      NeighboursIff(edges, v, w);
      var i :| 0 <= i < |edges| && Joins(edges[i], v, w);
    }
  }

  /** For every edge (a, b), b is a neighbour of a and a of b. */
  lemma AdjacencySymmetric(edges: seq<Edge>, i: int)
    requires 0 <= i < |edges|
    ensures edges[i].to in Neighbours(edges, edges[i].from)
    ensures edges[i].from in Neighbours(edges, edges[i].to)
  {
    assert Joins(edges[i], edges[i].from, edges[i].to);
    assert Joins(edges[i], edges[i].to, edges[i].from);
    NeighboursIff(edges, edges[i].from, edges[i].to);
    NeighboursIff(edges, edges[i].to, edges[i].from);
  }

  /** Scanning two edge lists one after the other concatenates the neighbour lists. */
  lemma {:induction false} NeighboursAppend(first: seq<Edge>, second: seq<Edge>, v: int)
    ensures Neighbours(first + second, v) == Neighbours(first, v) + Neighbours(second, v)
    decreases |second|
  {
    if second == [] {
      assert first + second == first;
    } else {
      var init, e := second[..|second| - 1], second[|second| - 1];
      assert (first + second)[..|first + second| - 1] == first + init;
      NeighboursAppend(first, init, v);
    }
  }

  /** Without loops, the list of v has one entry per incident edge. */
  lemma {:induction false} NeighboursLength(edges: seq<Edge>, v: int)
    requires LoopFree(edges)
    ensures |Neighbours(edges, v)| == Degree(edges, v)
    decreases |edges|
  {
    if edges != [] {
      NeighboursLength(edges[..|edges| - 1], v);
    }
  }

  function Hits(e: Edge, m: int): nat {
    (if 1 <= e.from <= m then 1 else 0) + (if 1 <= e.to <= m then 1 else 0)
  }

  lemma {:induction false} NeighbourTotalLast(edges: seq<Edge>, m: int)
    requires edges != []
    ensures NeighbourTotal(edges, m) == NeighbourTotal(edges[..|edges| - 1], m) + Hits(edges[|edges| - 1], m)
    decreases m
  {
    if m > 0 {
      NeighbourTotalLast(edges, m - 1);
    }
  }

  /** With every endpoint a vertex, the lists of 1..n hold 2 * |edges| entries in all. */
  lemma {:induction false} NeighbourTotalIsTwiceEdges(edges: seq<Edge>, n: nat)
    requires EndpointsWithin(edges, 1, n)
    ensures NeighbourTotal(edges, n) == 2 * |edges|
    decreases |edges|
  {
    if edges == [] {
      NoEdgesNoNeighbours(edges, n);
    } else {
      NeighbourTotalLast(edges, n);
      NeighbourTotalIsTwiceEdges(edges[..|edges| - 1], n);
    }
  }

  lemma {:induction false} NoEdgesNoNeighbours(edges: seq<Edge>, m: int)
    requires edges == []
    ensures NeighbourTotal(edges, m) == 0
    decreases m
  {
    if m > 0 {
      NoEdgesNoNeighbours(edges, m - 1);
    }
  }

  /** The 4-cycle 1-2-3-4-1, given as (1,2), (2,3), (3,4), (4,1). */
  function Cycle4(): seq<Edge> {
    [Edge(1, 2, None), Edge(2, 3, None), Edge(3, 4, None), Edge(4, 1, None)]
  }

  /** On the 4-cycle, each list holds the two neighbours in the order their edges were listed. */
  lemma Cycle4Neighbours()
    ensures Neighbours(Cycle4(), 1) == [2, 4]
    ensures Neighbours(Cycle4(), 2) == [1, 3]
    ensures Neighbours(Cycle4(), 3) == [2, 4]
    ensures Neighbours(Cycle4(), 4) == [3, 1]
  {
    var c := Cycle4();
    var p1, p2, p3 := c[..1], c[..2], c[..3];
    assert p1[..0] == [] && p2[..1] == p1 && p3[..2] == p2 && c[..3] == p3;
    forall v | 1 <= v <= 4
      ensures Neighbours(c, v) == Neighbours(p3, v) + Contribution(c[3], v)
      ensures Neighbours(p3, v) == Neighbours(p2, v) + Contribution(c[2], v)
      ensures Neighbours(p2, v) == Neighbours(p1, v) + Contribution(c[1], v)
      ensures Neighbours(p1, v) == Contribution(c[0], v)
    {
    }
  }
}
