/**
 * Kruskal's spanning-forest selection (src/graph/algorithms/kruskal.ts).
 *
 * `DisjointSet` is the union-find structure over the ids 0..n: `parent`
 * links every element towards the root of its class, `find` compresses the
 * path it walks and `union` links the root of lower rank below the other.
 * Two ghost fields make its meaning explicit: `rep[x]` is the root of x's
 * class (the partition itself) and `depth[x]` bounds the length of x's path,
 * which is what makes `find` terminate.
 */
module Kruskal {
  import opened GraphTypes
  import opened Sequences
  import opened Walks
  import opened GraphModel
  import opened WeightSort

  /** `s` with every entry equal to `c` replaced by `p`. */
  function Relabel(s: seq<int>, c: int, p: int): (r: seq<int>)
    ensures |r| == |s|
    ensures forall i {:trigger r[i]} :: 0 <= i < |s| ==> r[i] == if s[i] == c then p else s[i]
  {
    if s == [] then [] else [if s[0] == c then p else s[0]] + Relabel(s[1..], c, p)
  }

  /** `s` with `d` added to every entry whose label in `labels` is `c`. */
  function Deepen(s: seq<nat>, labels: seq<int>, c: int, d: nat): (r: seq<nat>)
    requires |labels| == |s|
    ensures |r| == |s|
    ensures forall i {:trigger r[i]} :: 0 <= i < |s| ==> r[i] == if labels[i] == c then s[i] + d else s[i]
  {
    if s == [] then [] else [if labels[0] == c then s[0] + d else s[0]] + Deepen(s[1..], labels[1..], c, d)
  }

  /** The ids 0..n, of which there are n + 1. */
  function Ids(n: nat): (s: set<int>)
    ensures forall x :: x in s <==> 0 <= x <= n
    ensures |s| == n + 1
  {
    VertexSet(n) + {0}
  }

  /** Every parent is an id and shares its child's root. */
  ghost predicate ParentsShareRoot(parent: seq<int>, rep: seq<int>)
    requires |rep| == |parent|
  {
    forall x {:trigger parent[x]} :: 0 <= x < |parent| ==> 0 <= parent[x] < |parent| && rep[parent[x]] == rep[x]
  }

  /** Every root is an id that is its own parent and its own root. */
  ghost predicate RootsAreFixed(parent: seq<int>, rep: seq<int>)
    requires |rep| == |parent|
  {
    forall x {:trigger rep[x]} :: 0 <= x < |rep| ==> 0 <= rep[x] < |rep| && parent[rep[x]] == rep[x] && rep[rep[x]] == rep[x]
  }

  /** An element that is its own parent is its own root. */
  ghost predicate SelfParentIsRoot(parent: seq<int>, rep: seq<int>)
    requires |rep| == |parent|
  {
    forall x {:trigger parent[x]} :: 0 <= x < |parent| && parent[x] == x ==> rep[x] == x
  }

  /** From a non-root to its parent and to its root, rank strictly grows and depth strictly shrinks. */
  ghost predicate RankOrdered(parent: seq<int>, rank: seq<int>, rep: seq<int>, depth: seq<nat>)
    requires |rank| == |parent| && |rep| == |parent| && |depth| == |parent| && ParentsShareRoot(parent, rep)
    requires RootsAreFixed(parent, rep)
  {
    forall x {:trigger parent[x]} :: 0 <= x < |parent| && parent[x] != x ==>
      && rank[x] < rank[parent[x]] && rank[x] < rank[rep[x]]
      && depth[parent[x]] < depth[x] && depth[rep[x]] < depth[x]
  }

  /**
   * The shape a union-find state keeps: `rep` is the partition the parent
   * links describe, and ranks and depths are ordered along the links.
   */
  ghost predicate Wellformed(parent: seq<int>, rank: seq<int>, rep: seq<int>, depth: seq<nat>) {
    && |rank| == |parent| && |rep| == |parent| && |depth| == |parent|
    && ParentsShareRoot(parent, rep)
    && RootsAreFixed(parent, rep)
    && SelfParentIsRoot(parent, rep)
    && RankOrdered(parent, rank, rep, depth)
    && (forall x {:trigger rank[x]} :: 0 <= x < |rank| ==> rank[x] >= 0)
  }

  /** Path compression: pointing a non-root straight at its root keeps the shape and the partition. */
  lemma CompressWellformed(parent: seq<int>, rank: seq<int>, rep: seq<int>, depth: seq<nat>, x: int)
    requires Wellformed(parent, rank, rep, depth)
    requires 0 <= x < |parent| && parent[x] != x
    ensures rep[x] != x && Wellformed(parent[x := rep[x]], rank, rep, depth)
  {
  }

  /**
   * Linking root c below root p, with p's rank raised to exceed c's if needed,
   * keeps the shape once every element of c's class is relabelled to p.
   */
  lemma LinkWellformed(parent: seq<int>, rank: seq<int>, rep: seq<int>, depth: seq<nat>, c: int, p: int,
                       parent': seq<int>, rank': seq<int>, rep': seq<int>, depth': seq<nat>)
    requires Wellformed(parent, rank, rep, depth)
    requires 0 <= c < |parent| && 0 <= p < |parent| && c != p && parent[c] == c && parent[p] == p
    requires |rank'| == |rank| && rank'[p] >= rank[p] && rank[c] < rank'[p]
    requires forall i :: 0 <= i < |rank| && i != p ==> rank'[i] == rank[i]
    requires parent' == parent[c := p] && rep' == Relabel(rep, c, p) && depth' == Deepen(depth, rep, c, depth[p] + 1)
    ensures Wellformed(parent', rank', rep', depth')
  {
    LinkShares(parent, rep, c, p);
    LinkRoots(parent, rep, c, p);
    LinkOrdered(parent, rank, rep, depth, c, p, rank');
    forall x | 0 <= x < |rank'| ensures rank'[x] >= 0 {
      assert rank[x] >= 0;
    }
  }

  lemma LinkShares(parent: seq<int>, rep: seq<int>, c: int, p: int)
    requires |rep| == |parent| && ParentsShareRoot(parent, rep) && RootsAreFixed(parent, rep) && SelfParentIsRoot(parent, rep)
    requires 0 <= c < |parent| && 0 <= p < |parent| && c != p && parent[c] == c && parent[p] == p
    ensures ParentsShareRoot(parent[c := p], Relabel(rep, c, p))
    ensures SelfParentIsRoot(parent[c := p], Relabel(rep, c, p))
  {
    var parent', rep' := parent[c := p], Relabel(rep, c, p);
    assert rep[c] == c && rep[p] == p;
    forall x | 0 <= x < |parent'|
      ensures 0 <= parent'[x] < |parent'| && rep'[parent'[x]] == rep'[x]
    {
      if x != c {
        assert parent'[x] == parent[x] && rep[parent[x]] == rep[x];
      }
    }
    forall x | 0 <= x < |parent'| && parent'[x] == x
      ensures rep'[x] == x
    {
      assert x != c && parent[x] == x;
    }
  }

  lemma LinkRoots(parent: seq<int>, rep: seq<int>, c: int, p: int)
    requires |rep| == |parent| && RootsAreFixed(parent, rep) && SelfParentIsRoot(parent, rep)
    requires 0 <= c < |parent| && 0 <= p < |parent| && c != p && parent[c] == c && parent[p] == p
    ensures RootsAreFixed(parent[c := p], Relabel(rep, c, p))
  {
    var parent', rep' := parent[c := p], Relabel(rep, c, p);
    assert rep[c] == c && rep[p] == p;
    forall x | 0 <= x < |rep'|
      ensures 0 <= rep'[x] < |rep'| && parent'[rep'[x]] == rep'[x] && rep'[rep'[x]] == rep'[x]
    {
      assert rep[rep[x]] == rep[x];
    }
  }

  lemma LinkOrdered(parent: seq<int>, rank: seq<int>, rep: seq<int>, depth: seq<nat>, c: int, p: int, rank': seq<int>)
    requires Wellformed(parent, rank, rep, depth)
    requires 0 <= c < |parent| && 0 <= p < |parent| && c != p && parent[c] == c && parent[p] == p
    requires |rank'| == |rank| && rank'[p] >= rank[p] && rank[c] < rank'[p]
    requires forall i :: 0 <= i < |rank| && i != p ==> rank'[i] == rank[i]
    requires ParentsShareRoot(parent[c := p], Relabel(rep, c, p)) && RootsAreFixed(parent[c := p], Relabel(rep, c, p))
    ensures RankOrdered(parent[c := p], rank', Relabel(rep, c, p), Deepen(depth, rep, c, depth[p] + 1))
  {
    var parent', rep', depth' := parent[c := p], Relabel(rep, c, p), Deepen(depth, rep, c, depth[p] + 1);
    forall x | 0 <= x < |parent'| && parent'[x] != x
      ensures rank'[x] < rank'[parent'[x]] && rank'[x] < rank'[rep'[x]]
      ensures depth'[parent'[x]] < depth'[x] && depth'[rep'[x]] < depth'[x]
    {
      LinkOrderedAt(parent, rank, rep, depth, c, p, rank', x);
    }
  }

  /** The order facts of `LinkOrdered` at one element. */
  lemma LinkOrderedAt(parent: seq<int>, rank: seq<int>, rep: seq<int>, depth: seq<nat>, c: int, p: int, rank': seq<int>, x: int)
    requires Wellformed(parent, rank, rep, depth)
    requires 0 <= c < |parent| && 0 <= p < |parent| && c != p && parent[c] == c && parent[p] == p
    requires |rank'| == |rank| && rank'[p] >= rank[p] && rank[c] < rank'[p]
    requires forall i :: 0 <= i < |rank| && i != p ==> rank'[i] == rank[i]
    requires 0 <= x < |parent| && parent[c := p][x] != x
    ensures var parent', rep', depth' := parent[c := p], Relabel(rep, c, p), Deepen(depth, rep, c, depth[p] + 1);
      && rank'[x] < rank'[parent'[x]] && rank'[x] < rank'[rep'[x]]
      && depth'[parent'[x]] < depth'[x] && depth'[rep'[x]] < depth'[x]
  {
    var parent', rep', depth' := parent[c := p], Relabel(rep, c, p), Deepen(depth, rep, c, depth[p] + 1);
    assert rep[c] == c && rep[p] == p;
    assert rep'[p] == p && depth'[p] == depth[p];
    if x == c {
      assert parent'[x] == p && rep'[x] == p && rank'[x] == rank[c];
    } else {
      assert parent'[x] == parent[x] && parent[x] != x && x != p;
      assert rank'[x] == rank[x];
      assert rank[x] < rank[parent[x]] && rank[x] < rank[rep[x]];
      assert depth[parent[x]] < depth[x] && depth[rep[x]] < depth[x];
      assert rep[parent[x]] == rep[x] && rep[rep[x]] == rep[x];
      if rep[x] == c {
        assert rep'[x] == p && depth'[x] == depth[x] + depth[p] + 1;
      } else {
        assert rep'[x] == rep[x] && depth'[x] == depth[x] && depth'[rep[x]] == depth[rep[x]];
      }
    }
  }

  /** Every element its own parent and root, with rank 0: the shape holds. */
  lemma InitialWellformed(m: nat)
    ensures Wellformed(seq(m, i => i), seq(m, _ => 0), seq(m, i => i), seq(m, _ => 0))
  {
  }

  /** The roots of the partition `rep`: the elements that are their own root. */
  ghost function RootsOf(rep: seq<int>): set<int> {
    set x | 0 <= x < |rep| && rep[x] == x
  }

  /** Relabelling class c as p merges exactly those two classes. */
  lemma RelabelMerges(rep: seq<int>, c: int, p: int, i: int, j: int)
    requires 0 <= i < |rep| && 0 <= j < |rep| && c != p
    ensures var rep' := Relabel(rep, c, p);
      rep'[i] == rep'[j] <==> rep[i] == rep[j] || (rep[i] in {c, p} && rep[j] in {c, p})
  {
  }

  /** Relabelling the class of x as that of y, or the other way round, merges the two classes. */
  lemma RelabelMerged(rep: seq<int>, c: int, p: int, x: int, y: int)
    requires 0 <= x < |rep| && 0 <= y < |rep| && c != p
    requires (rep[x] == c && rep[y] == p) || (rep[x] == p && rep[y] == c)
    ensures Merged(rep, Relabel(rep, c, p), x, y)
  {
    forall i, j | 0 <= i < |rep| && 0 <= j < |rep|
      ensures var rep' := Relabel(rep, c, p);
        rep'[i] == rep'[j] <==> rep[i] == rep[j] || (rep[i] in {c, p} && rep[j] in {c, p})
    {
      RelabelMerges(rep, c, p, i, j);
    }
  }

  /** Relabelling root c as root p removes exactly c from the roots. */
  lemma RelabelRoots(rep: seq<int>, c: int, p: int)
    requires 0 <= c < |rep| && 0 <= p < |rep| && c != p && rep[c] == c && rep[p] == p
    ensures RootsOf(Relabel(rep, c, p)) == RootsOf(rep) - {c}
    ensures |RootsOf(Relabel(rep, c, p))| == |RootsOf(rep)| - 1
  {
    var rep' := Relabel(rep, c, p);
    forall x | 0 <= x < |rep| ensures (rep'[x] == x) <==> (rep[x] == x && x != c) {
    }
    assert c in RootsOf(rep);
  }

  /**
   * `rep'` is the partition `rep` with the classes of x and y merged: two
   * elements share a class afterwards exactly when they did before, or each
   * was in the class of x or of y.
   */
  ghost predicate Merged(rep: seq<int>, rep': seq<int>, x: int, y: int) {
    && 0 <= x < |rep| && 0 <= y < |rep| && |rep'| == |rep|
    && forall i, j :: 0 <= i < |rep| && 0 <= j < |rep| ==>
      (rep'[i] == rep'[j] <==>
        (|| rep[i] == rep[j]
         || ((rep[i] == rep[x] || rep[i] == rep[y]) && (rep[j] == rep[x] || rep[j] == rep[y]))))
  }

  class DisjointSet {
    const size: nat
    const parent: array<int>
    const rank: array<int>
    /** The root of each element's class: the partition the structure represents. */
    ghost var rep: seq<int>
    /** A bound on the length of each element's path to its root. */
    ghost var depth: seq<nat>

    ghost predicate Valid()
      reads this, parent, rank
    {
      && parent.Length == size + 1 && rank.Length == size + 1 && parent != rank
      && Wellformed(parent[..], rank[..], rep, depth)
    }

    /** Elements x and y are in the same class. */
    ghost predicate Same(x: int, y: int)
      reads this
      requires 0 <= x < |rep| && 0 <= y < |rep|
    {
      rep[x] == rep[y]
    }

    /** The roots, one per class. */
    ghost function Roots(): set<int>
      reads this
    {
      RootsOf(rep)
    }

    /** Every id 0..n starts as its own root with rank 0. */
    constructor (n: nat)
      ensures Valid() && size == n && fresh(parent) && fresh(rank)
      ensures forall x :: 0 <= x <= n ==> parent[x] == x && rank[x] == 0 && rep[x] == x
      ensures |Roots()| == n + 1
    {
      size := n;
      parent := new int[n + 1](i => i);
      rank := new int[n + 1](_ => 0);
      rep := seq(n + 1, i => i);
      depth := seq(n + 1, _ => 0);
      new;
      assert parent[..] == rep && rank[..] == depth;
      InitialWellformed(n + 1);
      assert Roots() == Ids(n);
    }

    /** `find(x)`: the root of x's class; x and every element on its path are relinked to it. */
    method Find(x: int) returns (r: int)
      requires Valid() && 0 <= x <= size
      modifies parent
      ensures Valid()
      ensures r == rep[x] && parent[r] == r && parent[x] == r
      ensures forall y :: 0 <= y <= size ==> parent[y] == old(parent[y]) || parent[y] == rep[y]
      decreases depth[x]
    {
      if parent[x] != x {
        assert parent[..][x] == parent[x];
        var root := Find(parent[x]);
        CompressWellformed(parent[..], rank[..], rep, depth, x);
        parent[x] := root;
      }
      r := parent[x];
    }

    /** `union(x, y)`: merges the classes of x and y, linking by rank. */
    method Union(x: int, y: int)
      requires Valid() && 0 <= x <= size && 0 <= y <= size
      modifies this, parent, rank
      ensures Valid() && Same(x, y)
      ensures Merged(old(rep), rep, x, y)
      ensures !old(Same(x, y)) && old(rank[rep[x]] < rank[rep[y]]) ==>
        rep == Relabel(old(rep), old(rep[x]), old(rep[y]))
      ensures !old(Same(x, y)) && old(rank[rep[x]] > rank[rep[y]]) ==>
        rep == Relabel(old(rep), old(rep[y]), old(rep[x]))
      ensures !old(Same(x, y)) && old(rank[rep[x]] == rank[rep[y]]) ==>
        rep == Relabel(old(rep), old(rep[y]), old(rep[x])) && rank[old(rep[x])] == old(rank[rep[x]]) + 1
      ensures old(Same(x, y)) ==> rep == old(rep) && rank[..] == old(rank[..])
      ensures !old(Same(x, y)) ==> |Roots()| == |old(Roots())| - 1
      ensures forall i :: 0 <= i <= size ==>
        rank[i] == old(rank[i]) ||
        (i == old(rep[x]) && rank[i] == old(rank[i]) + 1 && old(rank[rep[x]] == rank[rep[y]] && !Same(x, y)))
    {
      var rx := Find(x);
      var ry := Find(y);
      if rx == ry {
        return;
      }
      ghost var rep0 := rep;
      var child, root := rx, ry;
      if rank[rx] < rank[ry] {
        Link(rx, ry, false);
      } else if rank[rx] > rank[ry] {
        Link(ry, rx, false);
        child, root := ry, rx;
      } else {
        Link(ry, rx, true);
        child, root := ry, rx;
      }
      RelabelRoots(rep0, child, root);
      RelabelMerged(rep0, child, root, x, y);
    }

    /** Hangs root c below root p, raising p's rank by one when `bump`. */
    method Link(c: int, p: int, bump: bool)
      requires Valid() && 0 <= c <= size && 0 <= p <= size && c != p && parent[c] == c && parent[p] == p
      requires if bump then rank[c] == rank[p] else rank[c] < rank[p]
      modifies this, parent, rank
      ensures Valid()
      ensures rep == Relabel(old(rep), c, p)
      ensures parent[c] == p && forall i :: 0 <= i <= size && i != c ==> parent[i] == old(parent[i])
      ensures rank[p] == old(rank[p]) + (if bump then 1 else 0)
      ensures forall i :: 0 <= i <= size && i != p ==> rank[i] == old(rank[i])
    {
      ghost var P, R, rep0, depth0 := parent[..], rank[..], rep, depth;
      parent[c] := p;
      if bump {
        rank[p] := rank[p] + 1;
      }
      depth := Deepen(depth, rep, c, depth[p] + 1);
      rep := Relabel(rep, c, p);
      LinkWellformed(P, R, rep0, depth0, c, p, parent[..], rank[..], rep, depth);
    }
  }

  /**
   * The selection rule, stated on connectivity instead of on the union-find
   * structure: the forest chosen from the first k edges. An edge is kept
   * exactly when the edges kept before it do not already connect its endpoints.
   */
  ghost function Selected(edges: seq<Edge>, k: nat): seq<Edge>
    requires k <= |edges|
  {
    if k == 0 then []
    else
      var f := Selected(edges, k - 1);
      if Connected(f, edges[k - 1].from, edges[k - 1].to) then f else f + [edges[k - 1]]
  }

  /** The edges `kruskal` returns for the edge list `edges`. */
  ghost function KruskalForest(edges: seq<Edge>): seq<Edge> {
    var sorted := SortByWeight(edges);
    Selected(sorted, |sorted|)
  }

  /** No edge of `f` joins two vertices its predecessors in `f` already connect: `f` has no cycle. */
  ghost predicate Acyclic(f: seq<Edge>) {
    forall k :: 0 <= k < |f| ==> !Connected(f[..k], f[k].from, f[k].to)
  }

  /**
   * `mst` is a spanning forest of `edges` as Kruskal's algorithm builds it:
   * drawn in order from the weight-sorted edges, so with non-decreasing
   * weights, acyclic, and connecting exactly what `edges` connects.
   */
  ghost predicate IsKruskalOutput(edges: seq<Edge>, mst: seq<Edge>) {
    && IsSubsequence(mst, SortByWeight(edges))
    && SortedByWeight(mst)
    && Acyclic(mst)
    && forall u, v :: Connected(edges, u, v) <==> Connected(mst, u, v)
  }

  /** a and b share a class of `rep` exactly when `forest` connects them. */
  ghost predicate SameIffConnected(rep: seq<int>, forest: seq<Edge>, a: int, b: int)
    requires 0 <= a < |rep| && 0 <= b < |rep|
  {
    rep[a] == rep[b] <==> Connected(forest, a, b)
  }

  /** The union-find partition of 0..n is the connectivity relation of `forest`. */
  ghost predicate Tracks(rep: seq<int>, forest: seq<Edge>, n: nat) {
    && |rep| == n + 1
    && forall a, b :: 0 <= a <= n && 0 <= b <= n ==> SameIffConnected(rep, forest, a, b)
  }

  /**
   * One pass of kruskal's loop: `edge` is pushed and its endpoints united
   * exactly when `find` gives them different roots.
   */
  method ConsiderEdge(dsu: DisjointSet, edge: Edge, mst: seq<Edge>) returns (mst': seq<Edge>)
    requires dsu.Valid() && 0 <= edge.from <= dsu.size && 0 <= edge.to <= dsu.size
    modifies dsu, dsu.parent, dsu.rank
    ensures dsu.Valid()
    ensures old(dsu.Same(edge.from, edge.to)) ==> mst' == mst && dsu.rep == old(dsu.rep)
    ensures !old(dsu.Same(edge.from, edge.to)) ==>
      && mst' == mst + [edge]
      && Merged(old(dsu.rep), dsu.rep, edge.from, edge.to)
      && |dsu.Roots()| == |old(dsu.Roots())| - 1
  {
    mst' := mst;
    var a := dsu.Find(edge.from);
    var b := dsu.Find(edge.to);
    if a != b {
      mst' := mst' + [edge];
      dsu.Union(edge.from, edge.to);
    }
  }

  /** `kruskal(graph)`: the edges that join two different components, taken in weight order. */
  method Kruskal(graph: Graph) returns (mst: seq<Edge>)
    requires EndpointsWithin(graph.edges, 0, graph.vertices)
    ensures mst == KruskalForest(graph.edges)
    ensures IsKruskalOutput(graph.edges, mst)
    ensures IsMinimumSpanningForest(graph.edges, mst)
    ensures |mst| <= graph.vertices
    ensures EndpointsWithin(graph.edges, 1, graph.vertices) && graph.vertices >= 1 ==> |mst| <= graph.vertices - 1
  {
    var n := graph.vertices;
    mst := [];
    var dsu := new DisjointSet(n);
    var edges := SortByWeight(graph.edges);
    SortedWithin(graph.edges, 0, n);
    ghost var inner := EndpointsWithin(graph.edges, 1, n);
    if inner {
      SortedWithin(graph.edges, 1, n);
    }
    TracksInitially(dsu.rep, n);
    var i := 0;
    while i < |edges|
      invariant 0 <= i <= |edges|
      invariant dsu.Valid() && dsu.size == n && fresh(dsu.parent) && fresh(dsu.rank)
      invariant mst == Selected(edges, i)
      invariant Tracks(dsu.rep, mst, n)
      invariant |dsu.Roots()| + |mst| == n + 1
      invariant inner ==> EndpointsWithin(mst, 1, n)
    {
      var e := edges[i];
      SelectedStep(edges, i, dsu.rep, n);
      ghost var rep0, before := dsu.rep, mst;
      mst := ConsiderEdge(dsu, e, mst);
      if rep0[e.from] != rep0[e.to] {
        TracksLink(rep0, dsu.rep, before, e, n);
        if inner {
          WithinAppend(before, e, 1, n);
        }
      }
      i := i + 1;
    }
    KruskalForestCorrect(graph.edges);
    if inner && n >= 1 {
      ZeroAlone(dsu.rep, mst, n);
    }
    RootsAtLeast(dsu.rep, 0, if n >= 1 then 1 else 0);
    KruskalMinimum(graph.edges, n);
  }

  /**
   * One step of selection at position i, decided on a partition that tracks
   * the forest so far: the edge is kept exactly when its endpoints lie in
   * different classes.
   */
  lemma SelectedStep(edges: seq<Edge>, i: int, rep: seq<int>, n: nat)
    requires 0 <= i < |edges| && 0 <= edges[i].from <= n && 0 <= edges[i].to <= n
    requires Tracks(rep, Selected(edges, i), n)
    ensures Selected(edges, i + 1) ==
      if rep[edges[i].from] != rep[edges[i].to] then Selected(edges, i) + [edges[i]] else Selected(edges, i)
  {
    assert SameIffConnected(rep, Selected(edges, i), edges[i].from, edges[i].to);
  }

  /** Sorting, a permutation, keeps the endpoints where they were. */
  lemma SortedWithin(edges: seq<Edge>, lo: int, hi: int)
    requires EndpointsWithin(edges, lo, hi)
    ensures EndpointsWithin(SortByWeight(edges), lo, hi)
  {
    var sorted := SortByWeight(edges);
    SortSpec(edges);
    forall i | 0 <= i < |sorted| ensures lo <= sorted[i].from <= hi && lo <= sorted[i].to <= hi {
      assert sorted[i] in multiset(edges);
      var j :| 0 <= j < |edges| && edges[j] == sorted[i];
    }
  }

  lemma WithinAppend(f: seq<Edge>, e: Edge, lo: int, hi: int)
    requires EndpointsWithin(f, lo, hi) && lo <= e.from <= hi && lo <= e.to <= hi
    ensures EndpointsWithin(f + [e], lo, hi)
  {
  }

  /** With no edges, each vertex is connected only to itself, as each id is alone in its class. */
  lemma TracksInitially(rep: seq<int>, n: nat)
    requires |rep| == n + 1 && forall x :: 0 <= x <= n ==> rep[x] == x
    ensures Tracks(rep, [], n)
  {
    forall a, b | 0 <= a <= n && 0 <= b <= n ensures SameIffConnected(rep, [], a, b) {
      if a == b {
        ConnectedRefl([], a);
      } else if Connected([], a, b) {
        assert ClosedUnder([], {a});
        ClosedContains([], {a}, a, b);
      }
    }
  }

  /** Merging the classes of e's endpoints tracks adding e to the forest. */
  lemma TracksLink(rep: seq<int>, rep': seq<int>, forest: seq<Edge>, e: Edge, n: nat)
    requires Tracks(rep, forest, n) && Merged(rep, rep', e.from, e.to)
    ensures Tracks(rep', forest + [e], n)
  {
    forall a, b | 0 <= a <= n && 0 <= b <= n ensures SameIffConnected(rep', forest + [e], a, b) {
      ConnectedAddEdge(forest, e, a, b);
      assert SameIffConnected(rep, forest, a, b);
      assert SameIffConnected(rep, forest, a, e.from) && SameIffConnected(rep, forest, a, e.to);
      assert SameIffConnected(rep, forest, e.from, b) && SameIffConnected(rep, forest, e.to, b);
    }
  }

  /** Edges that avoid vertex 0 cannot connect it to vertex 1, so the two stay in different classes. */
  lemma ZeroAlone(rep: seq<int>, forest: seq<Edge>, n: nat)
    requires Tracks(rep, forest, n) && EndpointsWithin(forest, 1, n) && n >= 1
    ensures rep[0] != rep[1]
  {
    assert ClosedUnder(forest, {0});
    if Connected(forest, 0, 1) {
      ClosedContains(forest, {0}, 0, 1);
    }
    assert SameIffConnected(rep, forest, 0, 1);
  }

  /** Every class has a root, so there is at least one; two elements in different classes give two. */
  lemma RootsAtLeast(rep: seq<int>, a: int, b: int)
    requires forall x {:trigger rep[x]} :: 0 <= x < |rep| ==> 0 <= rep[x] < |rep| && rep[rep[x]] == rep[x]
    requires 0 <= a < |rep| && 0 <= b < |rep|
    ensures |RootsOf(rep)| >= 1
    ensures rep[a] != rep[b] ==> |RootsOf(rep)| >= 2
  {
    var R := RootsOf(rep);
    assert rep[a] in R && rep[b] in R;
    if rep[a] != rep[b] {
      assert rep[b] in R - {rep[a]};
      assert |R - {rep[a]}| == |R| - 1;
    }
  }

  /** Connectivity in a forest survives appending edges to it. */
  lemma PrefixConnected(f: seq<Edge>, r: seq<Edge>, u: int, v: int)
    requires |f| <= |r| && r[..|f|] == f && Connected(f, u, v)
    ensures Connected(r, u, v)
  {
    forall a, b | EdgeExists(f, a, b) ensures EdgeExists(r, a, b) {
      var i :| 0 <= i < |f| && Joins(f[i], a, b);
      assert r[i] == f[i];
    }
    ConnectedMono(f, r, u, v);
  }

  /** An edge whose endpoints the forest leaves unconnected keeps the forest acyclic. */
  lemma AcyclicAppend(f: seq<Edge>, e: Edge)
    requires Acyclic(f) && !Connected(f, e.from, e.to)
    ensures Acyclic(f + [e])
  {
    var g := f + [e];
    forall k | 0 <= k < |g| ensures !Connected(g[..k], g[k].from, g[k].to) {
      if k < |f| {
        assert g[..k] == f[..k] && g[k] == f[k];
      } else {
        assert g[..k] == f;
      }
    }
  }

  lemma {:induction false} SelectedAcyclic(edges: seq<Edge>, k: nat)
    requires k <= |edges|
    ensures Acyclic(Selected(edges, k))
  {
    if k > 0 {
      SelectedAcyclic(edges, k - 1);
      var f, e := Selected(edges, k - 1), edges[k - 1];
      if !Connected(f, e.from, e.to) {
        AcyclicAppend(f, e);
      }
    }
  }

  /** Selecting from more edges only appends to the forest. */
  lemma {:induction false} SelectedExtends(edges: seq<Edge>, j: nat, k: nat)
    requires j <= k <= |edges|
    ensures |Selected(edges, j)| <= |Selected(edges, k)|
    ensures Selected(edges, k)[..|Selected(edges, j)|] == Selected(edges, j)
    decreases k
  {
    if j < k {
      SelectedExtends(edges, j, k - 1);
      var f, g := Selected(edges, k - 1), Selected(edges, j);
      assert Selected(edges, k)[..|f|] == f;
      assert f[..|g|] == g;
    }
  }

  /** After selecting from the first k edges, the endpoints of each of them are connected. */
  lemma {:induction false} SelectedConnects(edges: seq<Edge>, k: nat, i: int)
    requires 0 <= i < k <= |edges|
    ensures Connected(Selected(edges, k), edges[i].from, edges[i].to)
  {
    var f, e := Selected(edges, i), edges[i];
    SelectedExtends(edges, i + 1, k);
    if Connected(f, e.from, e.to) {
      SelectedExtends(edges, i, i + 1);
      PrefixConnected(f, Selected(edges, i + 1), e.from, e.to);
    } else {
      var g := f + [e];
      assert Joins(g[|f|], e.from, e.to);
      ConnectedEdge(g, e.from, e.to);
    }
    PrefixConnected(Selected(edges, i + 1), Selected(edges, k), e.from, e.to);
  }

  /** The selected edges are drawn from the first k edges, in order. */
  lemma {:induction false} SelectedPicks(edges: seq<Edge>, k: nat) returns (idx: seq<int>)
    requires k <= |edges|
    ensures SubsequenceVia(Selected(edges, k), edges, idx)
    ensures forall m :: 0 <= m < |idx| ==> idx[m] < k
  {
    if k == 0 {
      idx := [];
    } else {
      var idx0 := SelectedPicks(edges, k - 1);
      var f := Selected(edges, k - 1);
      if Connected(f, edges[k - 1].from, edges[k - 1].to) {
        idx := idx0;
      } else {
        var r := f + [edges[k - 1]];
        idx := idx0 + [k - 1];
        forall m | 0 <= m < |idx| ensures 0 <= idx[m] < |edges| && r[m] == edges[idx[m]] && idx[m] < k {
          if m < |idx0| {
            assert idx[m] == idx0[m] && r[m] == f[m];
          }
        }
        forall m, l | 0 <= m < l < |idx| ensures idx[m] < idx[l] {
          if l < |idx0| {
            assert idx[m] == idx0[m] && idx[l] == idx0[l];
          } else {
            assert idx[m] == idx0[m];
          }
        }
      }
    }
  }

  /** A subsequence of a weight-sorted list is weight-sorted. */
  lemma SubsequenceSorted(a: seq<Edge>, b: seq<Edge>, idx: seq<int>)
    requires SubsequenceVia(a, b, idx) && SortedByWeight(b)
    ensures SortedByWeight(a)
  {
    forall i, j | 0 <= i < j < |a| ensures Weight(a[i]) <= Weight(a[j]) {
      assert a[i] == b[idx[i]] && a[j] == b[idx[j]] && idx[i] < idx[j];
    }
  }

  /** The selection from the sorted edges is an acyclic, spanning, weight-ordered forest. */
  lemma KruskalForestCorrect(edges: seq<Edge>)
    ensures IsKruskalOutput(edges, KruskalForest(edges))
  {
    var sorted := SortByWeight(edges);
    var r := KruskalForest(edges);
    SortSpec(edges);
    SelectedAcyclic(sorted, |sorted|);
    var idx := SelectedPicks(sorted, |sorted|);
    SubsequenceSorted(r, sorted, idx);
    forall i | 0 <= i < |edges| ensures Connected(r, edges[i].from, edges[i].to) {
      assert edges[i] in multiset(sorted);
      var j :| 0 <= j < |sorted| && sorted[j] == edges[i];
      SelectedConnects(sorted, |sorted|, j);
    }
    forall a, b | EdgeExists(r, a, b) ensures EdgeExists(edges, a, b) {
      var k :| 0 <= k < |r| && Joins(r[k], a, b);
      assert r[k] == sorted[idx[k]] && sorted[idx[k]] in multiset(edges);
      var j :| 0 <= j < |edges| && edges[j] == r[k];
    }
    forall u, v ensures Connected(edges, u, v) <==> Connected(r, u, v) {
      if Connected(edges, u, v) {
        ConnectedThrough(edges, r, u, v);
      }
      if Connected(r, u, v) {
        ConnectedMono(r, edges, u, v);
      }
    }
  }

  /** The sum of the edge weights, a missing weight counting as 1. */
  function TotalWeight(f: seq<Edge>): int {
    if f == [] then 0 else TotalWeight(f[..|f| - 1]) + Weight(f[|f| - 1])
  }

  // ---------------------------------------------------------------------
  // Minimality: no spanning forest of the graph weighs less than the selection
  // ---------------------------------------------------------------------

  /**
   * `f` is a spanning forest of `edges`: made of the graph's edges, acyclic,
   * and connecting every pair of vertices the graph connects.
   */
  ghost predicate IsSpanningForest(edges: seq<Edge>, f: seq<Edge>) {
    && (forall e :: e in f ==> e in edges)
    && Acyclic(f)
    && forall u, v :: Connected(edges, u, v) ==> Connected(f, u, v)
  }

  /** A spanning forest of least total weight: what a minimum spanning forest is. */
  ghost predicate IsMinimumSpanningForest(edges: seq<Edge>, t: seq<Edge>) {
    && IsSpanningForest(edges, t)
    && forall f :: IsSpanningForest(edges, f) ==> TotalWeight(t) <= TotalWeight(f)
  }

  /**
   * The components of `f` on 0..n as a partition, built edge by edge: each
   * edge relabels the class of its first endpoint as that of its second
   * unless the two already share a class.
   */
  ghost function Components(f: seq<Edge>, n: nat): (rep: seq<int>)
    requires EndpointsWithin(f, 0, n)
    ensures |rep| == n + 1
    ensures forall x {:trigger rep[x]} :: 0 <= x <= n ==> 0 <= rep[x] <= n && rep[rep[x]] == rep[x]
    decreases |f|
  {
    if f == [] then seq(n + 1, i => i)
    else
      var rep := Components(f[..|f| - 1], n);
      var e := f[|f| - 1];
      if rep[e.from] == rep[e.to] then rep else Relabel(rep, rep[e.from], rep[e.to])
  }

  /** The components partition relates exactly the vertices `f` connects. */
  lemma {:induction false} ComponentsTrack(f: seq<Edge>, n: nat)
    requires EndpointsWithin(f, 0, n)
    ensures Tracks(Components(f, n), f, n)
    decreases |f|
  {
    if f == [] {
      TracksInitially(Components(f, n), n);
    } else {
      ComponentsTrack(f[..|f| - 1], n);
      ComponentsStep(f, n);
    }
  }

  /** Tracking the connectivity of all but the last edge, the partition after it tracks that of `f`. */
  lemma ComponentsStep(f: seq<Edge>, n: nat)
    requires f != [] && EndpointsWithin(f, 0, n)
    requires Tracks(Components(f[..|f| - 1], n), f[..|f| - 1], n)
    ensures Tracks(Components(f, n), f, n)
  {
    var init, e := f[..|f| - 1], f[|f| - 1];
    ComponentsMerge(f, n);
    TracksLink(Components(init, n), Components(f, n), init, e, n);
    assert init + [e] == f;
  }

  /** The last edge of `f` merges the classes of its endpoints, or leaves the partition as it was when they already share one. */
  lemma ComponentsMerge(f: seq<Edge>, n: nat)
    requires f != [] && EndpointsWithin(f, 0, n)
    ensures Merged(Components(f[..|f| - 1], n), Components(f, n), f[|f| - 1].from, f[|f| - 1].to)
  {
    var rep, e := Components(f[..|f| - 1], n), f[|f| - 1];
    if rep[e.from] != rep[e.to] {
      RelabelMerged(rep, rep[e.from], rep[e.to], e.from, e.to);
    } else {
      assert Merged(rep, rep, e.from, e.to);
    }
  }

  /** Each edge of an acyclic forest joins two components, so n + 1 - |f| components remain. */
  lemma {:induction false} AcyclicComponents(f: seq<Edge>, n: nat)
    requires EndpointsWithin(f, 0, n) && Acyclic(f)
    ensures |RootsOf(Components(f, n))| + |f| == n + 1
    decreases |f|
  {
    if f == [] {
      assert RootsOf(Components(f, n)) == Ids(n);
    } else {
      var init, e := f[..|f| - 1], f[|f| - 1];
      assert Acyclic(init) by {
        forall k | 0 <= k < |init| ensures !Connected(init[..k], init[k].from, init[k].to) {
          assert init[..k] == f[..k] && init[k] == f[k];
        }
      }
      AcyclicComponents(init, n);
      ComponentsTrack(init, n);
      var rep := Components(init, n);
      assert f[..|init|] == init;
      assert SameIffConnected(rep, init, e.from, e.to);
      RelabelRoots(rep, rep[e.from], rep[e.to]);
    }
  }

  /** When every element of B is g[a] for some a in A, B has at most as many elements as A. */
  lemma {:induction false} ImageSize(A: set<int>, B: set<int>, g: seq<int>)
    requires forall a :: a in A ==> 0 <= a < |g|
    requires forall b :: b in B ==> exists a :: a in A && g[a] == b
    ensures |B| <= |A|
    decreases |B|
  {
    if B != {} {
      assert (forall x :: x !in B) ==> B == {};
      var b :| b in B;
      var a :| a in A && g[a] == b;
      var A', B' := A - {a}, B - {b};
      forall b' | b' in B' ensures exists a' :: a' in A' && g[a'] == b' {
        var a' :| a' in A && g[a'] == b';
        assert a' != a;
      }
      ImageSize(A', B', g);
    }
  }

  /** If `g` connects whatever `f` connects, `g` has no more components than `f`. */
  lemma CoarserFewer(f: seq<Edge>, g: seq<Edge>, n: nat)
    requires EndpointsWithin(f, 0, n) && EndpointsWithin(g, 0, n)
    requires forall a, b :: 0 <= a <= n && 0 <= b <= n && Connected(f, a, b) ==> Connected(g, a, b)
    ensures |RootsOf(Components(g, n))| <= |RootsOf(Components(f, n))|
  {
    var rf, rg := Components(f, n), Components(g, n);
    ComponentsTrack(f, n);
    ComponentsTrack(g, n);
    forall s | s in RootsOf(rg) ensures exists r :: r in RootsOf(rf) && rg[r] == s {
      var r := rf[s];
      assert SameIffConnected(rf, f, r, s);
      assert SameIffConnected(rg, g, r, s);
      assert r in RootsOf(rf);
    }
    ImageSize(RootsOf(rf), RootsOf(rg), rg);
  }

  /** An acyclic forest has at most as many edges as an acyclic forest that connects everything it connects. */
  lemma AcyclicNoLarger(f: seq<Edge>, g: seq<Edge>, n: nat)
    requires EndpointsWithin(f, 0, n) && EndpointsWithin(g, 0, n) && Acyclic(f) && Acyclic(g)
    requires forall a, b :: 0 <= a <= n && 0 <= b <= n && Connected(f, a, b) ==> Connected(g, a, b)
    ensures |f| <= |g|
  {
    AcyclicComponents(f, n);
    AcyclicComponents(g, n);
    CoarserFewer(f, g, n);
  }

  /** Edges drawn from a list with endpoints in [lo, hi] have their endpoints there too. */
  lemma MembersWithin(f: seq<Edge>, edges: seq<Edge>, lo: int, hi: int)
    requires EndpointsWithin(edges, lo, hi) && forall e :: e in f ==> e in edges
    ensures EndpointsWithin(f, lo, hi)
  {
    forall i | 0 <= i < |f| ensures lo <= f[i].from <= hi && lo <= f[i].to <= hi {
      assert f[i] in f;
      var j :| 0 <= j < |edges| && edges[j] == f[i];
    }
  }

  /** Whatever a forest drawn from the edges of another connects, the other connects too. */
  lemma ConnectedSubset(f: seq<Edge>, g: seq<Edge>, u: int, v: int)
    requires (forall e :: e in f ==> e in g) && Connected(f, u, v)
    ensures Connected(g, u, v)
  {
    forall a, b | EdgeExists(f, a, b) ensures EdgeExists(g, a, b) {
      var i :| 0 <= i < |f| && Joins(f[i], a, b);
      assert f[i] in f;
      var j :| 0 <= j < |g| && g[j] == f[i];
    }
    ConnectedMono(f, g, u, v);
  }

  /** Dropping the heavy edges of an acyclic forest leaves it acyclic. */
  lemma {:induction false} LightAcyclic(f: seq<Edge>, w: int)
    requires Acyclic(f)
    ensures Acyclic(Light(f, w))
    decreases |f|
  {
    if f != [] {
      var init, e := f[..|f| - 1], f[|f| - 1];
      assert Acyclic(init) by {
        forall k | 0 <= k < |init| ensures !Connected(init[..k], init[k].from, init[k].to) {
          assert init[..k] == f[..k] && init[k] == f[k];
        }
      }
      LightAcyclic(init, w);
      if Weight(e) <= w {
        assert f[..|init|] == init;
        if Connected(Light(init, w), e.from, e.to) {
          forall x | x in Light(init, w) ensures x in init {
            LightMembers(init, w, x);
          }
          ConnectedSubset(Light(init, w), init, e.from, e.to);
        }
        AcyclicAppend(Light(init, w), e);
        assert Light(f, w) == Light(init, w) + [e];
      } else {
        assert Light(f, w) == Light(init, w);
      }
    }
  }

  /** The selection from the first k edges keeps their endpoints' bounds. */
  lemma SelectedWithin(edges: seq<Edge>, k: nat, lo: int, hi: int)
    requires k <= |edges| && EndpointsWithin(edges, lo, hi)
    ensures EndpointsWithin(Selected(edges, k), lo, hi)
  {
    var idx := SelectedPicks(edges, k);
    var f := Selected(edges, k);
    forall m | 0 <= m < |f| ensures lo <= f[m].from <= hi && lo <= f[m].to <= hi {
      assert f[m] == edges[idx[m]];
    }
  }

  /**
   * The selection from the light prefix of the sorted edges (those of weight
   * at most w) is a prefix of the whole selection made of light edges.
   */
  lemma SelectedLightPrefix(sorted: seq<Edge>, w: int)
    requires SortedByWeight(sorted)
    ensures |Light(sorted, w)| <= |sorted|
    ensures |Selected(sorted, |Light(sorted, w)|)| <= |Light(Selected(sorted, |sorted|), w)|
  {
    LightSorted(sorted, w);
    var k := |Light(sorted, w)|;
    var P := Selected(sorted, k);
    SelectedExtends(sorted, k, |sorted|);
    var idx := SelectedPicks(sorted, k);
    forall e | e in P ensures Weight(e) <= w {
      var m :| 0 <= m < |P| && P[m] == e;
      assert e == sorted[idx[m]] && idx[m] < k;
    }
    LightPrefix(Selected(sorted, |sorted|), P, w);
  }

  /** The selection from the light prefix of the sorted edges connects the ends of every light edge of `f`. */
  lemma LightSpanned(edges: seq<Edge>, f: seq<Edge>, w: int)
    requires forall e :: e in f ==> e in edges
    ensures var sorted := SortByWeight(edges);
      && |Light(sorted, w)| <= |sorted|
      && forall i :: 0 <= i < |Light(f, w)| ==>
        Connected(Selected(sorted, |Light(sorted, w)|), Light(f, w)[i].from, Light(f, w)[i].to)
  {
    var sorted := SortByWeight(edges);
    SortSpec(edges);
    LightSorted(sorted, w);
    var k := |Light(sorted, w)|;
    var g := Light(f, w);
    forall i | 0 <= i < |g| ensures Connected(Selected(sorted, k), g[i].from, g[i].to) {
      assert g[i] in g;
      LightMembers(f, w, g[i]);
      assert g[i] in multiset(sorted);
      var j :| 0 <= j < |sorted| && sorted[j] == g[i];
      SelectedConnects(sorted, k, j);
    }
  }

  /**
   * The cut step of the exchange argument: for every weight bound w, a
   * spanning forest has no more edges of weight at most w than the selection.
   * The selection from the light prefix of the sorted edges connects every
   * light edge, hence everything the light part of `f` connects, and being
   * acyclic it cannot have fewer edges.
   */
  lemma LightBound(edges: seq<Edge>, n: nat, f: seq<Edge>, w: int)
    requires EndpointsWithin(edges, 0, n) && IsSpanningForest(edges, f)
    ensures |Light(f, w)| <= |Light(KruskalForest(edges), w)|
  {
    var sorted := SortByWeight(edges);
    SortSpec(edges);
    SelectedLightPrefix(sorted, w);
    LightSpanned(edges, f, w);
    var P := Selected(sorted, |Light(sorted, w)|);
    var g := Light(f, w);
    forall a, b | 0 <= a <= n && 0 <= b <= n && Connected(g, a, b) ensures Connected(P, a, b) {
      ConnectedThrough(g, P, a, b);
    }
    forall e | e in g ensures e in edges {
      LightMembers(f, w, e);
    }
    LightAcyclic(f, w);
    SelectedAcyclic(sorted, |Light(sorted, w)|);
    SortedWithin(edges, 0, n);
    SelectedWithin(sorted, |Light(sorted, w)|, 0, n);
    MembersWithin(g, edges, 0, n);
    AcyclicNoLarger(g, P, n);
  }

  lemma {:induction false} InsertTotal(s: seq<Edge>, e: Edge)
    ensures TotalWeight(Insert(s, e)) == TotalWeight(s) + Weight(e)
    decreases |s|
  {
    if s == [] || Weight(s[|s| - 1]) <= Weight(e) {
      assert (s + [e])[..|s|] == s;
    } else {
      var init, r := s[..|s| - 1], Insert(s[..|s| - 1], e);
      assert (r + [s[|s| - 1]])[..|r|] == r;
      InsertTotal(init, e);
    }
  }

  /** Sorting keeps the total weight. */
  lemma {:induction false} SortTotal(s: seq<Edge>)
    ensures TotalWeight(SortByWeight(s)) == TotalWeight(s)
    decreases |s|
  {
    if s != [] {
      SortTotal(s[..|s| - 1]);
      InsertTotal(SortByWeight(s[..|s| - 1]), s[|s| - 1]);
    }
  }

  /** Edge by edge no heavier, and as many edges: no heavier in total. */
  lemma {:induction false} TotalDominated(a: seq<Edge>, b: seq<Edge>)
    requires |a| == |b| && forall i :: 0 <= i < |a| ==> Weight(a[i]) <= Weight(b[i])
    ensures TotalWeight(a) <= TotalWeight(b)
    decreases |a|
  {
    if a != [] {
      TotalDominated(a[..|a| - 1], b[..|b| - 1]);
    }
  }

  /**
   * The selection is a minimum spanning forest: every spanning forest of the
   * graph has as many edges and weighs at least as much. Both sorted by
   * weight, the i-th edge of the selection is no heavier than the i-th edge
   * of the other forest, by `LightBound` at that edge's weight.
   */
  lemma KruskalMinimal(edges: seq<Edge>, n: nat, f: seq<Edge>)
    requires EndpointsWithin(edges, 0, n) && IsSpanningForest(edges, f)
    ensures |f| == |KruskalForest(edges)|
    ensures TotalWeight(KruskalForest(edges)) <= TotalWeight(f)
  {
    var t := KruskalForest(edges);
    KruskalForestCorrect(edges);
    KruskalSpanning(edges);
    SortedWithin(edges, 0, n);
    SelectedWithin(SortByWeight(edges), |SortByWeight(edges)|, 0, n);
    MembersWithin(f, edges, 0, n);
    forall a, b | 0 <= a <= n && 0 <= b <= n && Connected(f, a, b) ensures Connected(t, a, b) {
      ConnectedSubset(f, edges, a, b);
    }
    AcyclicNoLarger(t, f, n);
    AcyclicNoLarger(f, t, n);
    var g := SortByWeight(f);
    SortSpec(f);
    SortTotal(f);
    assert |g| == |multiset(g)| == |multiset(f)| == |f|;
    forall i | 0 <= i < |t| ensures Weight(t[i]) <= Weight(g[i]) {
      var w := Weight(g[i]);
      LightSorted(g, w);
      SortLight(f, w);
      LightBound(edges, n, f, w);
      LightSorted(t, w);
    }
    TotalDominated(t, g);
  }

  /** The selection is itself a spanning forest of the graph. */
  lemma KruskalSpanning(edges: seq<Edge>)
    ensures IsSpanningForest(edges, KruskalForest(edges))
  {
    var sorted := SortByWeight(edges);
    var t := KruskalForest(edges);
    KruskalForestCorrect(edges);
    SortSpec(edges);
    var idx := SelectedPicks(sorted, |sorted|);
    forall e | e in t ensures e in edges {
      var m :| 0 <= m < |t| && t[m] == e;
      assert sorted[idx[m]] in multiset(edges);
    }
  }

  /** Over a graph on 0..n the selection is a minimum spanning forest. */
  lemma KruskalMinimum(edges: seq<Edge>, n: nat)
    requires EndpointsWithin(edges, 0, n)
    ensures IsMinimumSpanningForest(edges, KruskalForest(edges))
  {
    KruskalSpanning(edges);
    forall f | IsSpanningForest(edges, f) ensures TotalWeight(KruskalForest(edges)) <= TotalWeight(f) {
      KruskalMinimal(edges, n, f);
    }
  }

  function TriangleEdges(): seq<Edge> {
    [Edge(1, 2, Some(5)), Edge(2, 3, Some(1)), Edge(1, 3, Some(3))]
  }

  /** On the weighted triangle the two lighter edges are chosen, of total weight 4. */
  lemma KruskalTriangle()
    ensures KruskalForest(TriangleEdges()) == [Edge(2, 3, Some(1)), Edge(1, 3, Some(3))]
    ensures TotalWeight(KruskalForest(TriangleEdges())) == 4
  {
    var s := TriangleSorted();
    TriangleFirst(s);
    TriangleSecond(s);
    TriangleThird(s);
  }

  lemma TriangleSorted() returns (s: seq<Edge>)
    ensures s == SortByWeight(TriangleEdges()) == [Edge(2, 3, Some(1)), Edge(1, 3, Some(3)), Edge(1, 2, Some(5))]
  {
    var E := TriangleEdges();
    assert [E[0]][..0] == [] && [E[1], E[0]][..1] == [E[1]];
    assert E[..2][..1] == [E[0]] && E[..2] == [E[0], E[1]];
    assert SortByWeight(E[..2][..1]) == [E[0]];
    assert Insert([E[0]], E[1]) == [E[1], E[0]];
    assert Insert([E[1], E[0]], E[2]) == Insert([E[1]], E[2]) + [E[0]];
    s := SortByWeight(E);
  }

  lemma TriangleFirst(s: seq<Edge>)
    requires s == [Edge(2, 3, Some(1)), Edge(1, 3, Some(3)), Edge(1, 2, Some(5))]
    ensures Selected(s, 1) == [s[0]]
  {
    assert ClosedUnder([], {2});
    if Connected([], 2, 3) {
      ClosedContains([], {2}, 2, 3);
    }
  }

  lemma TriangleSecond(s: seq<Edge>)
    requires s == [Edge(2, 3, Some(1)), Edge(1, 3, Some(3)), Edge(1, 2, Some(5))]
    requires Selected(s, 1) == [s[0]]
    ensures Selected(s, 2) == [s[0], s[1]]
  {
    assert ClosedUnder([s[0]], {1});
    if Connected([s[0]], 1, 3) {
      ClosedContains([s[0]], {1}, 1, 3);
    }
  }

  lemma TriangleThird(s: seq<Edge>)
    requires s == [Edge(2, 3, Some(1)), Edge(1, 3, Some(3)), Edge(1, 2, Some(5))]
    requires Selected(s, 2) == [s[0], s[1]]
    ensures Selected(s, 3) == [s[0], s[1]]
  {
    var f := [s[0], s[1]];
    assert Joins(f[1], 1, 3) && Joins(f[0], 3, 2);
    ConnectedEdge(f, 1, 3);
    ConnectedStep(f, 1, 3, 2);
  }
}
