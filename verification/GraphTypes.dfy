/**
 * The records of the graph data model: an edge is an unordered pair of
 * vertex ids with an optional weight, a graph is a vertex count, an edge
 * list and a weighted flag. Vertices are the ids 1..vertices.
 */
module GraphTypes {

  datatype Option<T> = None | Some(value: T) {
    /** The value, or `default` when absent (the `??` operator). */
    function GetOr(default: T): T {
      match this
      case Some(v) => v
      case None => default
    }
  }

  datatype Edge = Edge(from: int, to: int, weight: Option<int>)

  datatype GraphData = GraphData(vertices: nat, edges: seq<Edge>, isWeighted: bool)

  /** The vertex ids 1..n, of which there are n (none when n <= 0). */
  function VertexSet(n: int): (s: set<int>)
    ensures forall v :: v in s <==> 1 <= v <= n
    ensures n >= 0 ==> |s| == n
    decreases n
  {
    if n <= 0 then {} else VertexSet(n - 1) + {n}
  }

  /** Edge `e` joins `u` and `w`, in either orientation. */
  predicate Joins(e: Edge, u: int, w: int) {
    (e.from == u && e.to == w) || (e.from == w && e.to == u)
  }

  /** Some edge of the list joins `u` and `w`, in either orientation. */
  predicate EdgeExists(edges: seq<Edge>, u: int, w: int) {
    exists i :: 0 <= i < |edges| && Joins(edges[i], u, w)
  }

  /** Every endpoint lies in [lo, hi]. */
  predicate EndpointsWithin(edges: seq<Edge>, lo: int, hi: int) {
    forall i :: 0 <= i < |edges| ==> lo <= edges[i].from <= hi && lo <= edges[i].to <= hi
  }

  /** No edge joins a vertex to itself. */
  predicate LoopFree(edges: seq<Edge>) {
    forall i :: 0 <= i < |edges| ==> edges[i].from != edges[i].to
  }

  /** Extending the list by one edge adds exactly the pair that edge joins. */
  lemma EdgeExistsAppend(edges: seq<Edge>, e: Edge, u: int, w: int)
    ensures EdgeExists(edges + [e], u, w) <==> EdgeExists(edges, u, w) || Joins(e, u, w)
  {
    var all := edges + [e];
    if EdgeExists(all, u, w) {
      var i :| 0 <= i < |all| && Joins(all[i], u, w);
      if i < |edges| {
        assert Joins(edges[i], u, w);
      }
    }
    if EdgeExists(edges, u, w) {
      var i :| 0 <= i < |edges| && Joins(edges[i], u, w);
      assert Joins(all[i], u, w);
    }
    if Joins(e, u, w) {
      assert Joins(all[|edges|], u, w);
    }
  }

  /** EdgeExists does not depend on the orientation of the query. */
  lemma EdgeExistsSymmetric(edges: seq<Edge>, u: int, w: int)
    ensures EdgeExists(edges, u, w) <==> EdgeExists(edges, w, u)
  {
    if EdgeExists(edges, u, w) {
      var i :| 0 <= i < |edges| && Joins(edges[i], u, w);
      assert Joins(edges[i], w, u);
    }
    if EdgeExists(edges, w, u) {
      var i :| 0 <= i < |edges| && Joins(edges[i], w, u);
      assert Joins(edges[i], u, w);
    }
  }
}
