/**
 * Depth-first traversal (src/graph/algorithms/dfs.ts): a recursive `visit`
 * marks its vertex, appends it to the output and then visits, in
 * adjacency-list order, every neighbour that is still unvisited. A vertex is
 * marked exactly when it is appended, so the output doubles as the visited set.
 */
module DepthFirst {
  import opened GraphTypes
  import opened Sequences
  import opened Walks
  import opened GraphModel

  /** The vertices 1..n that do not occur in `order`: what is left to visit. */
  function Unvisited(n: nat, order: seq<int>): set<int> {
    VertexSet(n) - (set x | x in order)
  }

  /** All entries lie in 1..n. */
  predicate InRange(s: seq<int>, n: nat) {
    forall k :: 0 <= k < |s| ==> 1 <= s[k] <= n
  }

  lemma NeighboursInRange(edges: seq<Edge>, n: nat, v: int)
    requires EndpointsWithin(edges, 1, n)
    ensures InRange(Neighbours(edges, v), n)
  {
    var nbs := Neighbours(edges, v);
    NeighboursWithin(edges, n, v);
    forall k | 0 <= k < |nbs| ensures 1 <= nbs[k] <= n {
      assert nbs[k] in nbs;
    }
  }

  /** Extending the output can only shrink what is left to visit. */
  lemma PrefixShrinks(n: nat, before: seq<int>, after: seq<int>)
    requires |after| >= |before| && after[..|before|] == before
    ensures Unvisited(n, after) <= Unvisited(n, before)
  {
    forall x | x in before ensures x in after {
      var i :| 0 <= i < |before| && before[i] == x;
      assert after[i] == x;
    }
  }

  /** The output after `visit(v)` returns, starting from output `order`. */
  function DfsVisit(edges: seq<Edge>, n: nat, v: int, order: seq<int>): (r: seq<int>)
    requires EndpointsWithin(edges, 1, n) && InRange(order, n)
    requires 1 <= v <= n && v !in order
    ensures |r| > |order| && r[..|order|] == order && r[|order|] == v
    ensures InRange(r, n)
    decreases Unvisited(n, order), 0, 0
  {
    NeighboursInRange(edges, n, v);
    assert v in Unvisited(n, order) && v !in Unvisited(n, order + [v]);
    var r := DfsAll(edges, n, Neighbours(edges, v), order + [v]);
    assert r[..|order| + 1][..|order|] == order;
    r
  }

  /** The output after the loop of `visit` has gone through the neighbours `nbs`. */
  function DfsAll(edges: seq<Edge>, n: nat, nbs: seq<int>, order: seq<int>): (r: seq<int>)
    requires EndpointsWithin(edges, 1, n) && InRange(order, n) && InRange(nbs, n)
    ensures |r| >= |order| && r[..|order|] == order
    ensures InRange(r, n)
    decreases Unvisited(n, order), 1, |nbs|
  {
    if nbs == [] then order
    else
      assert nbs[0] in nbs && forall w :: w in nbs[1..] ==> w in nbs;
      var next := if nbs[0] in order then order else DfsVisit(edges, n, nbs[0], order);
      assert nbs[0] in next;
      PrefixShrinks(n, order, next);
      var r := DfsAll(edges, n, nbs[1..], next);
      assert r[..|next|][..|order|] == order;
      r
  }

  /** The traversal's output from `s`. */
  function DfsOrder(edges: seq<Edge>, n: nat, s: int): seq<int>
    requires EndpointsWithin(edges, 1, n) && 1 <= s <= n
  {
    DfsVisit(edges, n, s, [])
  }

  /** What the traversal promises about its output. */
  ghost predicate IsDfsOutput(edges: seq<Edge>, n: nat, s: int, order: seq<int>) {
    && |order| >= 1 && order[0] == s
    && Distinct(order)
    && (forall v :: v in order <==> Connected(edges, s, v))
    && (forall k :: 1 <= k < |order| ==> exists j :: 0 <= j < k && EdgeExists(edges, order[j], order[k]))
    && |order| <= n
  }

  method Dfs(graph: Graph, start: int) returns (order: seq<int>)
    requires EndpointsWithin(graph.edges, 1, graph.vertices)
    requires 1 <= start <= graph.vertices
    ensures order == DfsOrder(graph.edges, graph.vertices, start)
    ensures IsDfsOutput(graph.edges, graph.vertices, start, order)
  {
    var n := graph.vertices;
    var visited := new bool[n + 1](_ => false);
    var adj := graph.GetAdjacencyList();
    order := Visit(graph.edges, n, adj, visited, start, []);
    DfsOrderCorrect(graph.edges, n, start);
  }

  /** `visit(v)`: marks v, appends it, and recurses into each unvisited neighbour. */
  method Visit(ghost edges: seq<Edge>, n: nat, adj: map<int, seq<int>>, visited: array<bool>, v: int, order: seq<int>)
    returns (order': seq<int>)
    requires EndpointsWithin(edges, 1, n) && InRange(order, n)
    requires forall x :: 1 <= x <= n ==> x in adj && adj[x] == Neighbours(edges, x)
    requires visited.Length == n + 1
    requires forall x :: 0 <= x <= n ==> (visited[x] <==> x in order)
    requires 1 <= v <= n && v !in order
    modifies visited
    ensures order' == DfsVisit(edges, n, v, order)
    ensures forall x :: 0 <= x <= n ==> (visited[x] <==> x in order')
    decreases Unvisited(n, order)
  {
    visited[v] := true;
    order' := order + [v];
    var nbs := adj[v];
    NeighboursInRange(edges, n, v);
    VisitedShrinks(n, order, order', v);
    var i := 0;
    while i < |nbs|
      invariant 0 <= i <= |nbs|
      invariant InRange(order', n)
      invariant forall x :: 0 <= x <= n ==> (visited[x] <==> x in order')
      invariant Unvisited(n, order') < Unvisited(n, order)
      invariant DfsAll(edges, n, nbs[i..], order') == DfsVisit(edges, n, v, order)
    {
      DfsAllStep(edges, n, nbs, i, order');
      var u := nbs[i];
      if !visited[u] {
        ghost var before := order';
        order' := Visit(edges, n, adj, visited, u, order');
        PrefixShrinks(n, before, order');
      }
      i := i + 1;
    }
    assert nbs[i..] == [];
  }

  /** Once `v` has been appended after `before`, fewer vertices remain unvisited. */
  lemma VisitedShrinks(n: nat, before: seq<int>, after: seq<int>, v: int)
    requires |after| > |before| && after[..|before|] == before && after[|before|] == v
    requires 1 <= v <= n && v !in before
    ensures Unvisited(n, after) < Unvisited(n, before)
  {
    PrefixShrinks(n, before, after);
    assert v in Unvisited(n, before) && v !in Unvisited(n, after);
  }

  /** One turn of the neighbour loop: skip a visited neighbour, otherwise visit it. */
  lemma DfsAllStep(edges: seq<Edge>, n: nat, nbs: seq<int>, i: int, order: seq<int>)
    requires EndpointsWithin(edges, 1, n) && InRange(order, n) && InRange(nbs, n)
    requires 0 <= i < |nbs|
    ensures InRange(nbs[i..], n) && InRange(nbs[i + 1..], n) && 1 <= nbs[i] <= n
    ensures nbs[i] in order ==> DfsAll(edges, n, nbs[i..], order) == DfsAll(edges, n, nbs[i + 1..], order)
    ensures nbs[i] !in order ==>
      DfsAll(edges, n, nbs[i..], order) == DfsAll(edges, n, nbs[i + 1..], DfsVisit(edges, n, nbs[i], order))
  {
    assert nbs[i..][0] == nbs[i] && nbs[i..][1..] == nbs[i + 1..];
  }

  /** Every edge leaving a vertex appended after position |order| stays inside `r`. */
  ghost predicate NewClosed(edges: seq<Edge>, order: seq<int>, r: seq<int>) {
    forall k, w :: |order| <= k < |r| && EdgeExists(edges, r[k], w) ==> w in r
  }

  /** Every vertex from position `from` on is joined by an edge to an earlier one. */
  ghost predicate Parented(edges: seq<Edge>, r: seq<int>, from: nat) {
    forall k :: from <= k < |r| ==> HasParent(edges, r, k)
  }

  /** Some vertex before position k is joined to the vertex at k. */
  ghost predicate HasParent(edges: seq<Edge>, r: seq<int>, k: int)
    requires 0 <= k < |r|
  {
    exists j :: 0 <= j < k && EdgeExists(edges, r[j], r[k])
  }

  /** `visit(v)` keeps the output duplicate-free, closes the part it adds, and
    * reaches every vertex it adds (after v) through an earlier one. */
  lemma {:induction false} DfsVisitFacts(edges: seq<Edge>, n: nat, v: int, order: seq<int>)
    requires EndpointsWithin(edges, 1, n) && InRange(order, n) && Distinct(order)
    requires 1 <= v <= n && v !in order
    ensures Distinct(DfsVisit(edges, n, v, order))
    ensures NewClosed(edges, order, DfsVisit(edges, n, v, order))
    ensures Parented(edges, DfsVisit(edges, n, v, order), |order| + 1)
    decreases Unvisited(n, order), 0, 0
  {
    NeighboursInRange(edges, n, v);
    assert v in Unvisited(n, order) && v !in Unvisited(n, order + [v]);
    var nbs := Neighbours(edges, v);
    var start := order + [v];
    forall w | w in nbs ensures EdgeExists(edges, v, w) {
      NeighboursIff(edges, v, w);
    }
    assert Distinct(start);
    DfsAllFacts(edges, n, nbs, start, v);
    var r := DfsAll(edges, n, nbs, start);
    assert r[|order|] == v;
    forall k, w | |order| <= k < |r| && EdgeExists(edges, r[k], w) ensures w in r {
      if k == |order| {
        NeighboursIff(edges, v, w);
      }
    }
  }

  lemma VisitUnfold(edges: seq<Edge>, n: nat, v: int, order: seq<int>)
    requires EndpointsWithin(edges, 1, n) && InRange(order, n)
    requires 1 <= v <= n && v !in order
    ensures InRange(Neighbours(edges, v), n) && InRange(order + [v], n)
    ensures DfsVisit(edges, n, v, order) == DfsAll(edges, n, Neighbours(edges, v), order + [v])
  {
    NeighboursInRange(edges, n, v);
  }

  lemma AllSkip(edges: seq<Edge>, n: nat, nbs: seq<int>, order: seq<int>)
    requires EndpointsWithin(edges, 1, n) && InRange(order, n) && InRange(nbs, n)
    requires nbs != [] && nbs[0] in order
    ensures InRange(nbs[1..], n)
    ensures DfsAll(edges, n, nbs, order) == DfsAll(edges, n, nbs[1..], order)
  {
    assert forall w :: w in nbs[1..] ==> w in nbs;
  }

  lemma AllVisit(edges: seq<Edge>, n: nat, nbs: seq<int>, order: seq<int>)
    requires EndpointsWithin(edges, 1, n) && InRange(order, n) && InRange(nbs, n)
    requires nbs != [] && nbs[0] !in order
    ensures InRange(nbs[1..], n) && 1 <= nbs[0] <= n
    ensures DfsAll(edges, n, nbs, order) == DfsAll(edges, n, nbs[1..], DfsVisit(edges, n, nbs[0], order))
  {
    assert nbs[0] in nbs && forall w :: w in nbs[1..] ==> w in nbs;
  }

  /** A neighbour loop over vertices that are all visited already appends nothing. */
  lemma {:induction false} AllDone(edges: seq<Edge>, n: nat, nbs: seq<int>, order: seq<int>)
    requires EndpointsWithin(edges, 1, n) && InRange(order, n) && InRange(nbs, n)
    requires forall w :: w in nbs ==> w in order
    ensures DfsAll(edges, n, nbs, order) == order
    decreases |nbs|
  {
    if nbs != [] {
      AllSkip(edges, n, nbs, order);
      AllDone(edges, n, nbs[1..], order);
    }
  }

  /** The neighbour loop keeps the same facts and leaves every neighbour in the output. */
  lemma {:induction false} DfsAllFacts(edges: seq<Edge>, n: nat, nbs: seq<int>, order: seq<int>, p: int)
    requires EndpointsWithin(edges, 1, n) && InRange(order, n) && InRange(nbs, n) && Distinct(order)
    requires p in order && forall w :: w in nbs ==> EdgeExists(edges, p, w)
    ensures Distinct(DfsAll(edges, n, nbs, order))
    ensures NewClosed(edges, order, DfsAll(edges, n, nbs, order))
    ensures Parented(edges, DfsAll(edges, n, nbs, order), |order|)
    ensures forall w :: w in nbs ==> w in DfsAll(edges, n, nbs, order)
    decreases Unvisited(n, order), 1, |nbs|
  {
    if nbs != [] {
      assert nbs[0] in nbs && forall w :: w in nbs[1..] ==> w in nbs;
      var next := if nbs[0] in order then order else DfsVisit(edges, n, nbs[0], order);
      if nbs[0] !in order {
        DfsVisitFacts(edges, n, nbs[0], order);
        ParentOfFirst(edges, order, next, p);
      }
      assert nbs[0] in next;
      PrefixShrinks(n, order, next);
      assert p in next by {
        var i :| 0 <= i < |order| && order[i] == p;
        assert next[i] == p;
      }
      DfsAllFacts(edges, n, nbs[1..], next, p);
      var r := DfsAll(edges, n, nbs[1..], next);
      assert r == DfsAll(edges, n, nbs, order);
      ExtendFacts(edges, order, next, r);
    }
  }

  /** The first vertex that `visit` appends is a neighbour of `p`, which came before it. */
  lemma ParentOfFirst(edges: seq<Edge>, order: seq<int>, next: seq<int>, p: int)
    requires |next| > |order| && next[..|order|] == order
    requires p in order && EdgeExists(edges, p, next[|order|])
    requires Parented(edges, next, |order| + 1)
    ensures Parented(edges, next, |order|)
  {
    var i :| 0 <= i < |order| && order[i] == p;
    assert next[i] == p;
    assert HasParent(edges, next, |order|);
  }

  /** Facts about the part added in two stages combine into facts about the whole. */
  lemma ExtendFacts(edges: seq<Edge>, order: seq<int>, next: seq<int>, r: seq<int>)
    requires |next| >= |order| && next[..|order|] == order
    requires |r| >= |next| && r[..|next|] == next
    requires NewClosed(edges, order, next) && NewClosed(edges, next, r)
    requires Parented(edges, next, |order|) && Parented(edges, r, |next|)
    ensures NewClosed(edges, order, r) && Parented(edges, r, |order|)
    ensures forall x :: x in next ==> x in r
  {
    PrefixMembers(next, r);
    ExtendClosed(edges, order, next, r);
    ExtendParented(edges, order, next, r);
  }

  lemma PrefixMembers(next: seq<int>, r: seq<int>)
    requires |r| >= |next| && r[..|next|] == next
    ensures forall x :: x in next ==> x in r
  {
    forall x | x in next ensures x in r {
      var i :| 0 <= i < |next| && next[i] == x;
      assert r[i] == x;
    }
  }

  lemma ExtendClosed(edges: seq<Edge>, order: seq<int>, next: seq<int>, r: seq<int>)
    requires |next| >= |order| && |r| >= |next| && r[..|next|] == next
    requires forall x :: x in next ==> x in r
    requires NewClosed(edges, order, next) && NewClosed(edges, next, r)
    ensures NewClosed(edges, order, r)
  {
    forall k, w | |order| <= k < |next| && EdgeExists(edges, r[k], w) ensures w in r {
      assert r[k] == next[k];
    }
  }

  lemma ExtendParented(edges: seq<Edge>, order: seq<int>, next: seq<int>, r: seq<int>)
    requires |next| >= |order| && |r| >= |next| && r[..|next|] == next
    requires Parented(edges, next, |order|) && Parented(edges, r, |next|)
    ensures Parented(edges, r, |order|)
  {
    forall k | |order| <= k < |r| ensures HasParent(edges, r, k) {
      if k < |next| {
        assert HasParent(edges, next, k);
        var j :| 0 <= j < k && EdgeExists(edges, next[j], next[k]);
        assert r[j] == next[j] && r[k] == next[k];
      }
    }
  }

  /** Walking back along parents links every output vertex to the first one. */
  lemma {:induction false} ParentedConnected(edges: seq<Edge>, r: seq<int>, k: nat)
    requires |r| >= 1 && Parented(edges, r, 1) && k < |r|
    ensures Connected(edges, r[0], r[k])
    decreases k
  {
    if k == 0 {
      ConnectedRefl(edges, r[0]);
    } else {
      assert HasParent(edges, r, k);
      var j :| 0 <= j < k && EdgeExists(edges, r[j], r[k]);
      ParentedConnected(edges, r, j);
      ConnectedStep(edges, r[0], r[j], r[k]);
    }
  }

  lemma DfsOrderCorrect(edges: seq<Edge>, n: nat, s: int)
    requires EndpointsWithin(edges, 1, n) && 1 <= s <= n
    ensures IsDfsOutput(edges, n, s, DfsOrder(edges, n, s))
  {
    var r := DfsOrder(edges, n, s);
    DfsVisitFacts(edges, n, s, []);
    assert r[0] == s;
    var S := set x | x in r;
    assert ClosedUnder(edges, S) by {
      forall a, b | a in S && EdgeExists(edges, a, b) ensures b in S {
        var k :| 0 <= k < |r| && r[k] == a;
      }
    }
    forall v | v in r ensures Connected(edges, s, v) {
      var k :| 0 <= k < |r| && r[k] == v;
      ParentedConnected(edges, r, k);
    }
    forall v | Connected(edges, s, v) ensures v in r {
      ClosedContains(edges, S, s, v);
    }
    forall x | x in r ensures x in VertexSet(n) {
      var k :| 0 <= k < |r| && r[k] == x;
    }
    DistinctLength(r, VertexSet(n));
    forall k | 1 <= k < |r| ensures exists j :: 0 <= j < k && EdgeExists(edges, r[j], r[k]) {
      assert HasParent(edges, r, k);
    }
  }

  lemma DfsCycleExample()
    ensures EndpointsWithin(Cycle4(), 1, 4)
    ensures DfsOrder(Cycle4(), 4, 1) == [1, 2, 3, 4]
  {
    Cycle4Neighbours();
    DfsCycleRun(Cycle4());
  }

  /** The traversal from 1 on any graph on 1..4 whose lists are those of the 4-cycle. */
  lemma DfsCycleRun(c: seq<Edge>)
    requires EndpointsWithin(c, 1, 4)
    requires Neighbours(c, 1) == [2, 4] && Neighbours(c, 2) == [1, 3]
    requires Neighbours(c, 3) == [2, 4] && Neighbours(c, 4) == [3, 1]
    ensures DfsOrder(c, 4, 1) == [1, 2, 3, 4]
  {
    var all := [1, 2, 3, 4];
    DfsCycleVisit2(c);
    VisitUnfold(c, 4, 1, []);
    assert [] + [1] == [1];
    AllVisit(c, 4, [2, 4], [1]);
    assert [2, 4][1..] == [4];
    AllDone(c, 4, [4], all);
  }

  lemma DfsCycleVisit2(c: seq<Edge>)
    requires EndpointsWithin(c, 1, 4)
    requires Neighbours(c, 2) == [1, 3] && Neighbours(c, 3) == [2, 4] && Neighbours(c, 4) == [3, 1]
    ensures DfsVisit(c, 4, 2, [1]) == [1, 2, 3, 4]
  {
    var all := [1, 2, 3, 4];
    DfsCycleVisit3(c);
    VisitUnfold(c, 4, 2, [1]);
    assert [1] + [2] == [1, 2];
    AllSkip(c, 4, [1, 3], [1, 2]);
    assert [1, 3][1..] == [3];
    AllVisit(c, 4, [3], [1, 2]);
    assert [3][1..] == [];
  }

  lemma DfsCycleVisit3(c: seq<Edge>)
    requires EndpointsWithin(c, 1, 4)
    requires Neighbours(c, 3) == [2, 4] && Neighbours(c, 4) == [3, 1]
    ensures DfsVisit(c, 4, 3, [1, 2]) == [1, 2, 3, 4]
  {
    VisitUnfold(c, 4, 3, [1, 2]);
    assert [1, 2] + [3] == [1, 2, 3];
    DfsCycleLoop3(c);
  }

  lemma DfsCycleLoop3(c: seq<Edge>)
    requires EndpointsWithin(c, 1, 4)
    requires Neighbours(c, 4) == [3, 1]
    ensures DfsAll(c, 4, [2, 4], [1, 2, 3]) == [1, 2, 3, 4]
  {
    AllSkip(c, 4, [2, 4], [1, 2, 3]);
    assert [2, 4][1..] == [4];
    AllVisit(c, 4, [4], [1, 2, 3]);
    assert [4][1..] == [];
    DfsCycleVisit4(c);
  }

  lemma DfsCycleVisit4(c: seq<Edge>)
    requires EndpointsWithin(c, 1, 4)
    requires Neighbours(c, 4) == [3, 1]
    ensures DfsVisit(c, 4, 4, [1, 2, 3]) == [1, 2, 3, 4]
  {
    VisitUnfold(c, 4, 4, [1, 2, 3]);
    assert [1, 2, 3] + [4] == [1, 2, 3, 4];
    AllDone(c, 4, [3, 1], [1, 2, 3, 4]);
  }
}
