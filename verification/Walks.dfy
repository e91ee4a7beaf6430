/**
 * Connectivity in an undirected edge list: a walk is a non-empty sequence
 * of vertices in which consecutive vertices are joined by an edge.
 * `WithinSteps(edges, u, v, k)` says the graph distance from u to v is at
 * most k.
 */
module Walks {
  import opened GraphTypes

  ghost predicate IsWalk(edges: seq<Edge>, p: seq<int>) {
    |p| >= 1 && forall i :: 0 <= i < |p| - 1 ==> EdgeExists(edges, p[i], p[i + 1])
  }

  ghost predicate WalkBetween(edges: seq<Edge>, p: seq<int>, u: int, v: int) {
    IsWalk(edges, p) && p[0] == u && p[|p| - 1] == v
  }

  ghost predicate Connected(edges: seq<Edge>, u: int, v: int) {
    exists p :: WalkBetween(edges, p, u, v)
  }

  ghost predicate WithinSteps(edges: seq<Edge>, u: int, v: int, k: nat) {
    exists p :: WalkBetween(edges, p, u, v) && |p| <= k + 1
  }

  /** The distance from s to u is at most the distance from s to v. */
  ghost predicate NoFartherThan(edges: seq<Edge>, s: int, u: int, v: int) {
    forall k: nat :: WithinSteps(edges, s, v, k) ==> WithinSteps(edges, s, u, k)
  }

  /** No edge leaves the set `S`. */
  ghost predicate ClosedUnder(edges: seq<Edge>, S: set<int>) {
    forall a, b :: a in S && EdgeExists(edges, a, b) ==> b in S
  }

  lemma WalkExtend(edges: seq<Edge>, p: seq<int>, u: int, v: int, w: int)
    requires WalkBetween(edges, p, u, v) && EdgeExists(edges, v, w)
    ensures WalkBetween(edges, p + [w], u, w)
  {
    var q := p + [w];
    forall i | 0 <= i < |q| - 1 ensures EdgeExists(edges, q[i], q[i + 1]) {
      if i < |p| - 1 {
        assert q[i] == p[i] && q[i + 1] == p[i + 1];
      }
    }
  }

  lemma ConnectedRefl(edges: seq<Edge>, u: int)
    ensures Connected(edges, u, u)
  {
    assert WalkBetween(edges, [u], u, u);
  }

  lemma ConnectedStep(edges: seq<Edge>, u: int, v: int, w: int)
    requires Connected(edges, u, v) && EdgeExists(edges, v, w)
    ensures Connected(edges, u, w)
  {
    var p :| WalkBetween(edges, p, u, v);
    WalkExtend(edges, p, u, v, w);
  }

  lemma ConnectedEdge(edges: seq<Edge>, u: int, w: int)
    requires EdgeExists(edges, u, w)
    ensures Connected(edges, u, w)
  {
    ConnectedRefl(edges, u);
    ConnectedStep(edges, u, u, w);
  }

  lemma {:induction false} ConnectedTrans(edges: seq<Edge>, u: int, v: int, w: int)
    requires Connected(edges, u, v) && Connected(edges, v, w)
    ensures Connected(edges, u, w)
  {
    var q :| WalkBetween(edges, q, v, w);
    ConnectedAlong(edges, q, u, v, w);
  }

  lemma {:induction false} ConnectedAlong(edges: seq<Edge>, q: seq<int>, u: int, v: int, w: int)
    requires Connected(edges, u, v) && WalkBetween(edges, q, v, w)
    ensures Connected(edges, u, w)
    decreases |q|
  {
    if |q| > 1 {
      var init := q[..|q| - 1];
      assert WalkBetween(edges, init, v, q[|q| - 2]) by {
        forall i | 0 <= i < |init| - 1 ensures EdgeExists(edges, init[i], init[i + 1]) {
          assert init[i] == q[i] && init[i + 1] == q[i + 1];
        }
      }
      ConnectedAlong(edges, init, u, v, q[|q| - 2]);
      ConnectedStep(edges, u, q[|q| - 2], w);
    }
  }

  lemma {:induction false} ConnectedSymm(edges: seq<Edge>, u: int, v: int)
    requires Connected(edges, u, v)
    ensures Connected(edges, v, u)
  {
    var p :| WalkBetween(edges, p, u, v);
    ReverseWalk(edges, p, u, v);
  }

  lemma {:induction false} ReverseWalk(edges: seq<Edge>, p: seq<int>, u: int, v: int)
    requires WalkBetween(edges, p, u, v)
    ensures Connected(edges, v, u)
    decreases |p|
  {
    if |p| == 1 {
      ConnectedRefl(edges, u);
    } else {
      var init := p[..|p| - 1];
      var x := p[|p| - 2];
      assert WalkBetween(edges, init, u, x) by {
        forall i | 0 <= i < |init| - 1 ensures EdgeExists(edges, init[i], init[i + 1]) {
          assert init[i] == p[i] && init[i + 1] == p[i + 1];
        }
      }
      ReverseWalk(edges, init, u, x);
      assert EdgeExists(edges, x, v);
      EdgeExistsSymmetric(edges, x, v);
      ConnectedEdge(edges, v, x);
      ConnectedTrans(edges, v, x, u);
    }
  }

  /** A walk that starts in a set no edge leaves ends in that set. */
  lemma {:induction false} ClosedContains(edges: seq<Edge>, S: set<int>, u: int, v: int)
    requires ClosedUnder(edges, S) && u in S && Connected(edges, u, v)
    ensures v in S
  {
    var p :| WalkBetween(edges, p, u, v);
    var i := 0;
    while i < |p| - 1
      invariant 0 <= i <= |p| - 1
      invariant p[i] in S
    {
      assert EdgeExists(edges, p[i], p[i + 1]);
      i := i + 1;
    }
  }

  /** Walks survive moving to a list in which every joined pair is still joined. */
  lemma {:induction false} ConnectedMono(edges: seq<Edge>, more: seq<Edge>, u: int, v: int)
    requires forall a, b :: EdgeExists(edges, a, b) ==> EdgeExists(more, a, b)
    requires Connected(edges, u, v)
    ensures Connected(more, u, v)
  {
    var p :| WalkBetween(edges, p, u, v);
    forall i | 0 <= i < |p| - 1 ensures EdgeExists(more, p[i], p[i + 1]) {
      assert EdgeExists(edges, p[i], p[i + 1]);
    }
    assert WalkBetween(more, p, u, v);
  }

  /**
   * If every edge of `graph` has its endpoints connected in `forest`, then
   * any two vertices connected in `graph` are connected in `forest`.
   */
  lemma {:induction false} ConnectedThrough(graph: seq<Edge>, forest: seq<Edge>, u: int, v: int)
    requires forall i :: 0 <= i < |graph| ==> Connected(forest, graph[i].from, graph[i].to)
    requires Connected(graph, u, v)
    ensures Connected(forest, u, v)
  {
    var p :| WalkBetween(graph, p, u, v);
    ConnectedRefl(forest, u);
    var i := 0;
    while i < |p| - 1
      invariant 0 <= i <= |p| - 1
      invariant Connected(forest, u, p[i])
    {
      assert EdgeExists(graph, p[i], p[i + 1]);
      var k :| 0 <= k < |graph| && Joins(graph[k], p[i], p[i + 1]);
      if graph[k].from == p[i] {
        ConnectedTrans(forest, u, p[i], p[i + 1]);
      } else {
        ConnectedSymm(forest, graph[k].from, graph[k].to);
        ConnectedTrans(forest, u, p[i], p[i + 1]);
      }
      i := i + 1;
    }
  }

  /**
   * Adding the edge `e` between a and b connects exactly the pairs that were
   * connected before, or that reach a and b from either side.
   */
  ghost predicate ConnectedAcross(edges: seq<Edge>, a: int, b: int, u: int, v: int) {
    || Connected(edges, u, v)
    || (Connected(edges, u, a) && Connected(edges, b, v))
    || (Connected(edges, u, b) && Connected(edges, a, v))
  }

  lemma {:induction false} ConnectedAddEdge(edges: seq<Edge>, e: Edge, u: int, v: int)
    ensures Connected(edges + [e], u, v) <==> ConnectedAcross(edges, e.from, e.to, u, v)
  {
    var more := edges + [e];
    var a, b := e.from, e.to;
    forall x, y | EdgeExists(edges, x, y) ensures EdgeExists(more, x, y) {
      EdgeExistsAppend(edges, e, x, y);
    }
    EdgeExistsAppend(edges, e, a, b);
    if Connected(more, u, v) {
      var p :| WalkBetween(more, p, u, v);
      AcrossAlong(edges, e, p, u, v);
    }
    if ConnectedAcross(edges, a, b, u, v) {
      if Connected(edges, u, v) {
        ConnectedMono(edges, more, u, v);
      } else if Connected(edges, u, a) && Connected(edges, b, v) {
        ConnectedMono(edges, more, u, a);
        ConnectedMono(edges, more, b, v);
        ConnectedStep(more, u, a, b);
        ConnectedTrans(more, u, b, v);
      } else {
        ConnectedMono(edges, more, u, b);
        ConnectedMono(edges, more, a, v);
        EdgeExistsSymmetric(more, a, b);
        ConnectedStep(more, u, b, a);
        ConnectedTrans(more, u, a, v);
      }
    }
  }

  lemma {:induction false} AcrossAlong(edges: seq<Edge>, e: Edge, p: seq<int>, u: int, v: int)
    requires WalkBetween(edges + [e], p, u, v)
    ensures ConnectedAcross(edges, e.from, e.to, u, v)
    decreases |p|
  {
    var a, b := e.from, e.to;
    if |p| == 1 {
      ConnectedRefl(edges, u);
    } else {
      var init := p[..|p| - 1];
      var x := p[|p| - 2];
      assert WalkBetween(edges + [e], init, u, x) by {
        forall i | 0 <= i < |init| - 1 ensures EdgeExists(edges + [e], init[i], init[i + 1]) {
          assert init[i] == p[i] && init[i + 1] == p[i + 1];
        }
      }
      AcrossAlong(edges, e, init, u, x);
      assert EdgeExists(edges + [e], x, v);
      EdgeExistsAppend(edges, e, x, v);
      if EdgeExists(edges, x, v) {
        AcrossStep(edges, a, b, u, x, v);
      } else if x == a {
        // the last step crosses e from a to b (v == b)
        if Connected(edges, u, x) {
          ConnectedRefl(edges, v);
        } else if Connected(edges, u, a) && Connected(edges, b, x) {
          ConnectedTrans(edges, u, a, x);
          ConnectedRefl(edges, v);
        } else {
          assert Connected(edges, u, b) && v == b;
        }
      } else {
        assert x == b && v == a;
        if Connected(edges, u, x) {
          ConnectedRefl(edges, v);
        } else if Connected(edges, u, b) && Connected(edges, a, x) {
          ConnectedTrans(edges, u, b, x);
          ConnectedRefl(edges, v);
        } else {
          assert Connected(edges, u, a) && v == a;
        }
      }
    }
  }

  lemma AcrossStep(edges: seq<Edge>, a: int, b: int, u: int, x: int, v: int)
    requires ConnectedAcross(edges, a, b, u, x) && EdgeExists(edges, x, v)
    ensures ConnectedAcross(edges, a, b, u, v)
  {
    if Connected(edges, u, x) {
      ConnectedStep(edges, u, x, v);
    } else if Connected(edges, u, a) && Connected(edges, b, x) {
      ConnectedStep(edges, b, x, v);
    } else {
      ConnectedStep(edges, a, x, v);
    }
  }

  // Distances

  lemma WithinStart(edges: seq<Edge>, s: int)
    ensures WithinSteps(edges, s, s, 0)
  {
    assert WalkBetween(edges, [s], s, s);
  }

  lemma WithinZero(edges: seq<Edge>, s: int, v: int)
    requires WithinSteps(edges, s, v, 0)
    ensures v == s
  {
  }

  lemma WithinExtend(edges: seq<Edge>, s: int, u: int, w: int, k: nat)
    requires WithinSteps(edges, s, u, k) && EdgeExists(edges, u, w)
    ensures WithinSteps(edges, s, w, k + 1)
  {
    var p :| WalkBetween(edges, p, s, u) && |p| <= k + 1;
    WalkExtend(edges, p, s, u, w);
  }

  lemma WithinMono(edges: seq<Edge>, s: int, v: int, k: nat, l: nat)
    ensures k <= l && WithinSteps(edges, s, v, k) ==> WithinSteps(edges, s, v, l)
  {
  }

  /** A vertex other than s within k steps has a neighbour within k - 1 steps. */
  lemma WithinPredecessor(edges: seq<Edge>, s: int, v: int, k: nat) returns (u: int)
    requires WithinSteps(edges, s, v, k) && v != s
    ensures k >= 1 && WithinSteps(edges, s, u, k - 1) && EdgeExists(edges, u, v)
  {
    var p :| WalkBetween(edges, p, s, v) && |p| <= k + 1;
    var init := p[..|p| - 1];
    u := p[|p| - 2];
    assert WalkBetween(edges, init, s, u) by {
      forall i | 0 <= i < |init| - 1 ensures EdgeExists(edges, init[i], init[i + 1]) {
        assert init[i] == p[i] && init[i + 1] == p[i + 1];
      }
    }
  }

  lemma WithinConnected(edges: seq<Edge>, s: int, v: int, k: nat)
    requires WithinSteps(edges, s, v, k)
    ensures Connected(edges, s, v)
  {
  }

  lemma ConnectedWithin(edges: seq<Edge>, s: int, v: int) returns (k: nat)
    requires Connected(edges, s, v)
    ensures WithinSteps(edges, s, v, k)
  {
    var p :| WalkBetween(edges, p, s, v);
    k := |p| - 1;
  }
}
