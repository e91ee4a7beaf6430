/**
 * Breadth-first traversal (src/graph/algorithms/bfs.ts): a FIFO queue seeded
 * with the start vertex; each dequeued vertex is appended to the output and
 * its unvisited neighbours, in adjacency-list order, are marked visited and
 * enqueued.
 */
module BreadthFirst {
  import opened GraphTypes
  import opened Sequences
  import opened Walks
  import opened GraphModel

  /**
   * Scanning the neighbour list `nbs` of a dequeued vertex: every neighbour
   * not yet visited is marked and appended to the queue, in list order.
   * Returns the new visited set and the new queue.
   */
  function Discover(nbs: seq<int>, visited: set<int>, queue: seq<int>): (set<int>, seq<int>)
    decreases |nbs|
  {
    if nbs == [] then (visited, queue)
    else if nbs[0] in visited then Discover(nbs[1..], visited, queue)
    else Discover(nbs[1..], visited + {nbs[0]}, queue + [nbs[0]])
  }

  /**
   * The scan marks every neighbour, keeps the old queue as a prefix and
   * appends exactly the neighbours that were unvisited, each once.
   */
  lemma {:induction false} DiscoverSpec(nbs: seq<int>, visited: set<int>, queue: seq<int>)
    ensures var r := Discover(nbs, visited, queue);
      && r.0 == visited + (set w | w in nbs)
      && |r.1| >= |queue| && r.1[..|queue|] == queue
      && (forall k :: |queue| <= k < |r.1| ==> r.1[k] in nbs && r.1[k] !in visited)
      && (forall w :: w in nbs && w !in visited ==> w in r.1[|queue|..])
      && Distinct(r.1[|queue|..])
      && (r.0 == visited ==> r.1 == queue)
    decreases |nbs|
  {
    if nbs != [] {
      if nbs[0] in visited {
        DiscoverSpec(nbs[1..], visited, queue);
        assert forall w :: w in nbs ==> w == nbs[0] || w in nbs[1..];
      } else {
        DiscoverSpec(nbs[1..], visited + {nbs[0]}, queue + [nbs[0]]);
        var r := Discover(nbs[1..], visited + {nbs[0]}, queue + [nbs[0]]);
        assert r.1[..|queue| + 1][|queue|] == nbs[0];
        assert forall w :: w in nbs ==> w == nbs[0] || w in nbs[1..];
        assert r.1[|queue| + 1..] == r.1[|queue|..][1..];
      }
    }
  }

  /** The rest of the traversal from the state (queue, visited, order). */
  function BfsRun(edges: seq<Edge>, n: nat, queue: seq<int>, visited: set<int>, order: seq<int>): seq<int>
    requires EndpointsWithin(edges, 1, n)
    requires visited <= VertexSet(n)
    decreases VertexSet(n) - visited, |queue|
  {
    if queue == [] then order
    else
      NeighboursWithin(edges, n, queue[0]);
      DiscoverSpec(Neighbours(edges, queue[0]), visited, queue[1..]);
      var r := Discover(Neighbours(edges, queue[0]), visited, queue[1..]);
      BfsRun(edges, n, r.1, r.0, order + [queue[0]])
  }

  /** The order in which the traversal from `s` first discovers vertices. */
  function BfsOrder(edges: seq<Edge>, n: nat, s: int): seq<int>
    requires EndpointsWithin(edges, 1, n) && 1 <= s <= n
  {
    BfsRun(edges, n, [s], {s}, [])
  }

  /** What the traversal promises about its output. */
  ghost predicate IsBfsOutput(edges: seq<Edge>, n: nat, s: int, order: seq<int>) {
    && |order| >= 1 && order[0] == s
    && Distinct(order)
    && (forall v :: v in order <==> Connected(edges, s, v))
    && (forall i, j :: 0 <= i < j < |order| ==> NoFartherThan(edges, s, order[i], order[j]))
    && |order| <= n
  }

  method Bfs(graph: Graph, start: int) returns (order: seq<int>)
    requires EndpointsWithin(graph.edges, 1, graph.vertices)
    requires 1 <= start <= graph.vertices
    ensures order == BfsOrder(graph.edges, graph.vertices, start)
    ensures IsBfsOutput(graph.edges, graph.vertices, start, order)
  {
    var n := graph.vertices;
    ghost var edges := graph.edges;
    var visited := new bool[n + 1](_ => false);
    order := [];
    var queue := [start];
    visited[start] := true;
    ghost var vis: set<int> := {start};
    var adj := graph.GetAdjacencyList();
    while queue != []
      invariant visited.Length == n + 1
      invariant forall v :: 0 <= v <= n ==> (visited[v] <==> v in vis)
      invariant vis <= VertexSet(n)
      invariant forall v :: v in vis <==> v in order || v in queue
      invariant Distinct(order + queue)
      invariant BfsRun(edges, n, queue, vis, order) == BfsOrder(edges, n, start)
      decreases VertexSet(n) - vis, |queue|
    {
      var node := queue[0];
      ghost var old_queue := queue;
      NeighboursWithin(edges, n, node);
      BfsRunUnfold(edges, n, queue, vis, order);
      DiscoverShape(order, queue, vis, adj[node]);
      ghost var measure := VertexSet(n) - vis;
      queue := queue[1..];
      order := order + [node];
      queue, vis := ScanNeighbours(visited, adj[node], queue, vis);
      assert VertexSet(n) - vis < measure || (VertexSet(n) - vis == measure && |queue| < |old_queue|);
    }
    BfsOrderCorrect(edges, n, start);
  }

  /** One step of the traversal, as the loop performs it. */
  lemma BfsRunUnfold(edges: seq<Edge>, n: nat, queue: seq<int>, vis: set<int>, order: seq<int>)
    requires EndpointsWithin(edges, 1, n)
    requires vis <= VertexSet(n)
    requires queue != []
    requires forall v :: v in queue ==> v in vis
    ensures var r := Discover(Neighbours(edges, queue[0]), vis, queue[1..]);
      && r.0 <= VertexSet(n)
      && (forall v :: v in r.1 ==> v in r.0)
      && BfsRun(edges, n, queue, vis, order) == BfsRun(edges, n, r.1, r.0, order + [queue[0]])
      && (VertexSet(n) - r.0 < VertexSet(n) - vis || (r.0 == vis && |r.1| < |queue|))
  {
    DiscoverSpec(Neighbours(edges, queue[0]), vis, queue[1..]);
    NeighboursWithin(edges, n, queue[0]);
    var r := Discover(Neighbours(edges, queue[0]), vis, queue[1..]);
    forall v | v in r.1 ensures v in r.0 {
      var k :| 0 <= k < |r.1| && r.1[k] == v;
      if k < |queue| - 1 {
        assert v == queue[1..][k];
      }
    }
    if exists w :: w in Neighbours(edges, queue[0]) && w !in vis {
      var w :| w in Neighbours(edges, queue[0]) && w !in vis;
      assert w in VertexSet(n) - vis && w !in VertexSet(n) - r.0;
    } else {
      assert r.0 == vis;
    }
  }

  /** The inner loop of the traversal: marks and enqueues the unvisited entries of `nbs`. */
  method ScanNeighbours(visited: array<bool>, nbs: seq<int>, queue: seq<int>, ghost vis: set<int>)
    returns (queue': seq<int>, ghost vis': set<int>)
    requires forall w :: w in nbs ==> 0 <= w < visited.Length
    requires forall v :: 0 <= v < visited.Length ==> (visited[v] <==> v in vis)
    modifies visited
    ensures (vis', queue') == Discover(nbs, vis, queue)
    ensures forall v :: 0 <= v < visited.Length ==> (visited[v] <==> v in vis')
  {
    queue', vis' := queue, vis;
    var i := 0;
    while i < |nbs|
      invariant 0 <= i <= |nbs|
      invariant forall v :: 0 <= v < visited.Length ==> (visited[v] <==> v in vis')
      invariant Discover(nbs[i..], vis', queue') == Discover(nbs, vis, queue)
    {
      assert nbs[i..][0] == nbs[i] && nbs[i..][1..] == nbs[i + 1..];
      var neighbor := nbs[i];
      assert neighbor in nbs;
      if !visited[neighbor] {
        visited[neighbor] := true;
        vis' := vis' + {neighbor};
        queue' := queue' + [neighbor];
      }
      i := i + 1;
    }
    assert nbs[i..] == [];
  }

  /** After a dequeue and a scan, the visited set is still order plus queue, without repetitions. */
  lemma DiscoverShape(order: seq<int>, queue: seq<int>, vis: set<int>, nbs: seq<int>)
    requires queue != []
    requires forall v :: v in vis <==> v in order || v in queue
    requires Distinct(order + queue)
    ensures var r := Discover(nbs, vis, queue[1..]);
      && (forall v :: v in r.0 <==> v in order + [queue[0]] || v in r.1)
      && Distinct(order + [queue[0]] + r.1)
  {
    DiscoverSpec(nbs, vis, queue[1..]);
    var rest := queue[1..];
    var r := Discover(nbs, vis, rest);
    var found := r.1[|rest|..];
    assert r.1 == rest + found;
    assert order + [queue[0]] + r.1 == (order + queue) + found;
    forall v | v in r.0 ensures v in order + [queue[0]] || v in r.1 {
      if v !in vis {
        assert v in nbs;
      }
    }
    var all := (order + queue) + found;
    forall i, j | 0 <= i < j < |all| ensures all[i] != all[j] {
      if j >= |order + queue| && i < |order + queue| {
        assert all[i] in order + queue;
        assert all[j] == found[j - |order + queue|];
      }
      if i >= |order + queue| {
        assert all[i] == found[i - |order + queue|] && all[j] == found[j - |order + queue|];
      }
    }
  }

  /*
   * The proof of the traversal tracks a ghost level for every visited vertex:
   * its exact distance from the start. Visited vertices are exactly the output
   * so far plus the queue, levels never decrease along output-then-queue, the
   * queue spans at most two consecutive levels, no edge leaves the output
   * except into visited vertices, and every vertex closer than the queue's
   * head has already been output.
   */
  ghost predicate Shape(s: int, n: nat, queue: seq<int>, vis: set<int>, order: seq<int>, lvl: map<int, nat>) {
    && s in vis && vis <= VertexSet(n)
    && (forall v :: v in vis <==> v in order || v in queue)
    && Distinct(order + queue)
    && |order + queue| >= 1 && (order + queue)[0] == s
    && lvl.Keys == vis
  }

  /** Each level is the exact distance from `s`. */
  ghost predicate ExactLevels(edges: seq<Edge>, s: int, lvl: map<int, nat>) {
    forall v :: v in lvl ==> WithinSteps(edges, s, v, lvl[v]) && (lvl[v] > 0 ==> !WithinSteps(edges, s, v, lvl[v] - 1))
  }

  /** Both vertices have levels, the first no higher than the second. */
  ghost predicate NotAbove(lvl: map<int, nat>, a: int, b: int) {
    a in lvl && b in lvl && lvl[a] <= lvl[b]
  }

  ghost predicate LevelsSorted(p: seq<int>, lvl: map<int, nat>) {
    forall i, j :: 0 <= i < j < |p| ==> NotAbove(lvl, p[i], p[j])
  }

  ghost predicate QueueSpan(queue: seq<int>, lvl: map<int, nat>) {
    queue != [] ==> queue[0] in lvl && forall v :: v in queue ==> v in lvl && lvl[v] <= lvl[queue[0]] + 1
  }

  ghost predicate OutputClosed(edges: seq<Edge>, order: seq<int>, vis: set<int>) {
    forall u, w :: u in order && EdgeExists(edges, u, w) ==> w in vis
  }

  ghost predicate Frontier(edges: seq<Edge>, s: int, queue: seq<int>, order: seq<int>, lvl: map<int, nat>) {
    queue != [] ==> queue[0] in lvl && forall u, k: nat :: k < lvl[queue[0]] && WithinSteps(edges, s, u, k) ==> u in order
  }

  ghost predicate BfsInv(edges: seq<Edge>, n: nat, s: int, queue: seq<int>, vis: set<int>, order: seq<int>, lvl: map<int, nat>) {
    && Shape(s, n, queue, vis, order, lvl)
    && ExactLevels(edges, s, lvl)
    && LevelsSorted(order + queue, lvl)
    && QueueSpan(queue, lvl)
    && OutputClosed(edges, order, vis)
    && Frontier(edges, s, queue, order, lvl)
  }

  /** A vertex reached within k steps has level at most k. */
  lemma LevelAtMost(edges: seq<Edge>, s: int, lvl: map<int, nat>, v: int, k: nat)
    requires ExactLevels(edges, s, lvl) && v in lvl
    requires WithinSteps(edges, s, v, k)
    ensures lvl[v] <= k
  {
    if lvl[v] > 0 {
      WithinMono(edges, s, v, k, lvl[v] - 1);
    }
  }

  /** Every vertex within the head's level has been visited. */
  lemma BallVisited(edges: seq<Edge>, n: nat, s: int, queue: seq<int>, vis: set<int>, order: seq<int>, lvl: map<int, nat>)
    requires BfsInv(edges, n, s, queue, vis, order, lvl) && queue != []
    ensures forall u :: WithinSteps(edges, s, u, lvl[queue[0]]) ==> u in vis
  {
    var d := lvl[queue[0]];
    forall u | WithinSteps(edges, s, u, d) ensures u in vis {
      if u != s {
        var x := WithinPredecessor(edges, s, u, d);
        assert x in order;
      }
    }
  }

  /** The state after one iteration: the new visited set and queue. */
  ghost function Next(edges: seq<Edge>, queue: seq<int>, vis: set<int>): (set<int>, seq<int>)
    requires queue != []
  {
    Discover(Neighbours(edges, queue[0]), vis, queue[1..])
  }

  /** The levels after one iteration: new vertices lie one level beyond the head. */
  ghost function NextLevels(edges: seq<Edge>, queue: seq<int>, vis: set<int>, lvl: map<int, nat>): map<int, nat>
    requires queue != [] && queue[0] in lvl
  {
    var vis' := Next(edges, queue, vis).0;
    map w | w in vis' :: if w in vis && w in lvl then lvl[w] else lvl[queue[0]] + 1
  }

  /** One iteration of the traversal keeps the invariant. */
  lemma BfsStep(edges: seq<Edge>, n: nat, s: int, queue: seq<int>, vis: set<int>, order: seq<int>, lvl: map<int, nat>)
    requires EndpointsWithin(edges, 1, n)
    requires BfsInv(edges, n, s, queue, vis, order, lvl) && queue != []
    ensures var r := Next(edges, queue, vis);
      BfsInv(edges, n, s, r.1, r.0, order + [queue[0]], NextLevels(edges, queue, vis, lvl))
  {
    var r := Next(edges, queue, vis);
    var lvl' := NextLevels(edges, queue, vis, lvl);
    var order' := order + [queue[0]];
    DiscoverSpec(Neighbours(edges, queue[0]), vis, queue[1..]);
    StepShape(edges, n, s, queue, vis, order, lvl);
    StepExact(edges, n, s, queue, vis, order, lvl);
    assert forall v :: v in order + queue ==> v in vis;
    StepSorted(edges, queue, vis, order, lvl);
    BallVisited(edges, n, s, queue, vis, order, lvl);
    FrontierNext(edges, s, order', r.1, r.0, lvl', lvl[queue[0]]);
    StepClosed(edges, n, s, queue, vis, order, lvl);
  }

  lemma StepShape(edges: seq<Edge>, n: nat, s: int, queue: seq<int>, vis: set<int>, order: seq<int>, lvl: map<int, nat>)
    requires EndpointsWithin(edges, 1, n)
    requires queue != [] && queue[0] in lvl && Shape(s, n, queue, vis, order, lvl)
    ensures var r := Next(edges, queue, vis);
      Shape(s, n, r.1, r.0, order + [queue[0]], NextLevels(edges, queue, vis, lvl))
  {
    var r := Next(edges, queue, vis);
    NeighboursWithin(edges, n, queue[0]);
    DiscoverSpec(Neighbours(edges, queue[0]), vis, queue[1..]);
    DiscoverShape(order, queue, vis, Neighbours(edges, queue[0]));
    assert (order + [queue[0]] + r.1)[0] == (order + queue)[0];
  }

  lemma StepExact(edges: seq<Edge>, n: nat, s: int, queue: seq<int>, vis: set<int>, order: seq<int>, lvl: map<int, nat>)
    requires BfsInv(edges, n, s, queue, vis, order, lvl) && queue != []
    ensures ExactLevels(edges, s, NextLevels(edges, queue, vis, lvl))
  {
    DiscoverSpec(Neighbours(edges, queue[0]), vis, queue[1..]);
    var node := queue[0];
    var d := lvl[node];
    var lvl' := NextLevels(edges, queue, vis, lvl);
    BallVisited(edges, n, s, queue, vis, order, lvl);
    forall w | w in lvl'
      ensures WithinSteps(edges, s, w, lvl'[w]) && (lvl'[w] > 0 ==> !WithinSteps(edges, s, w, lvl'[w] - 1))
    {
      if w !in vis {
        assert w in Neighbours(edges, node);
        NeighboursIff(edges, node, w);
        WithinExtend(edges, s, node, w, d);
      }
    }
  }

  lemma StepSorted(edges: seq<Edge>, queue: seq<int>, vis: set<int>, order: seq<int>, lvl: map<int, nat>)
    requires queue != [] && lvl.Keys == vis
    requires forall v :: v in order + queue ==> v in vis
    requires LevelsSorted(order + queue, lvl) && QueueSpan(queue, lvl)
    ensures var r := Next(edges, queue, vis);
      && LevelsSorted(order + [queue[0]] + r.1, NextLevels(edges, queue, vis, lvl))
      && QueueSpan(r.1, NextLevels(edges, queue, vis, lvl))
      && (r.1 != [] ==> NextLevels(edges, queue, vis, lvl)[r.1[0]] <= lvl[queue[0]] + 1)
  {
    var found := NextFound(edges, queue, vis, lvl);
    var r := Next(edges, queue, vis);
    var lvl' := NextLevels(edges, queue, vis, lvl);
    assert order + [queue[0]] + r.1 == (order + queue) + found;
    SortedExtend(order, queue, found, lvl, lvl');
  }

  /** One iteration keeps the old levels and appends to the queue's tail only vertices one level beyond its head. */
  lemma NextFound(edges: seq<Edge>, queue: seq<int>, vis: set<int>, lvl: map<int, nat>) returns (found: seq<int>)
    requires queue != [] && lvl.Keys == vis && queue[0] in vis
    ensures Next(edges, queue, vis).1 == queue[1..] + found
    ensures forall x :: x in vis ==> x in NextLevels(edges, queue, vis, lvl) && NextLevels(edges, queue, vis, lvl)[x] == lvl[x]
    ensures forall x :: x in found ==> x in NextLevels(edges, queue, vis, lvl) && NextLevels(edges, queue, vis, lvl)[x] == lvl[queue[0]] + 1
  {
    DiscoverSpec(Neighbours(edges, queue[0]), vis, queue[1..]);
    var r := Next(edges, queue, vis);
    var rest := queue[1..];
    found := r.1[|rest|..];
    assert r.1 == rest + found;
    forall x | x in found ensures x in r.0 && x !in vis {
      var k :| 0 <= k < |found| && found[k] == x;
      assert r.1[|rest| + k] == x;
    }
  }

  /** Appending vertices one level beyond the head keeps levels sorted and the queue within two levels. */
  lemma SortedExtend(order: seq<int>, queue: seq<int>, found: seq<int>, lvl: map<int, nat>, lvl': map<int, nat>)
    requires queue != [] && queue[0] in lvl
    requires LevelsSorted(order + queue, lvl) && QueueSpan(queue, lvl)
    requires forall x :: x in order + queue ==> x in lvl && x in lvl' && lvl'[x] == lvl[x]
    requires forall x :: x in found ==> x in lvl' && lvl'[x] == lvl[queue[0]] + 1
    ensures LevelsSorted(order + queue + found, lvl')
    ensures QueueSpan(queue[1..] + found, lvl')
    ensures queue[1..] + found != [] ==> (queue[1..] + found)[0] in lvl' && lvl'[(queue[1..] + found)[0]] <= lvl[queue[0]] + 1
  {
    SortedAppend(order, queue, found, lvl, lvl');
    SpanAppend(order, queue, found, lvl, lvl');
  }

  lemma SortedAppend(order: seq<int>, queue: seq<int>, found: seq<int>, lvl: map<int, nat>, lvl': map<int, nat>)
    requires queue != [] && queue[0] in lvl
    requires LevelsSorted(order + queue, lvl) && QueueSpan(queue, lvl)
    requires forall x :: x in order + queue ==> x in lvl && x in lvl' && lvl'[x] == lvl[x]
    requires forall x :: x in found ==> x in lvl' && lvl'[x] == lvl[queue[0]] + 1
    ensures LevelsSorted(order + queue + found, lvl')
  {
    var p' := order + queue + found;
    forall i, j | 0 <= i < j < |p'| ensures NotAbove(lvl', p'[i], p'[j]) {
      SortedPair(order, queue, found, lvl, lvl', i, j);
    }
  }

  lemma SortedPair(order: seq<int>, queue: seq<int>, found: seq<int>, lvl: map<int, nat>, lvl': map<int, nat>, i: int, j: int)
    requires queue != [] && queue[0] in lvl
    requires LevelsSorted(order + queue, lvl) && QueueSpan(queue, lvl)
    requires forall x :: x in order + queue ==> x in lvl && x in lvl' && lvl'[x] == lvl[x]
    requires forall x :: x in found ==> x in lvl' && lvl'[x] == lvl[queue[0]] + 1
    requires 0 <= i < j < |order + queue + found|
    ensures var p' := order + queue + found;
      p'[i] in lvl' && p'[j] in lvl' && lvl'[p'[i]] <= lvl'[p'[j]]
  {
    var p := order + queue;
    var p' := p + found;
    if j < |p| {
      assert p'[i] == p[i] && p'[j] == p[j];
    } else if i < |p| {
      assert p'[j] == found[j - |p|];
      assert p'[i] == p[i];
      if i < |order| {
        assert p[|order|] == queue[0];
        assert lvl[p[i]] <= lvl[p[|order|]];
      } else {
        assert p[i] == queue[i - |order|];
        assert p[i] in queue;
      }
    } else {
      assert p'[i] == found[i - |p|] && p'[j] == found[j - |p|];
    }
  }

  lemma SpanAppend(order: seq<int>, queue: seq<int>, found: seq<int>, lvl: map<int, nat>, lvl': map<int, nat>)
    requires queue != [] && queue[0] in lvl
    requires LevelsSorted(order + queue, lvl) && QueueSpan(queue, lvl)
    requires forall x :: x in order + queue ==> x in lvl && x in lvl' && lvl'[x] == lvl[x]
    requires forall x :: x in found ==> x in lvl' && lvl'[x] == lvl[queue[0]] + 1
    ensures QueueSpan(queue[1..] + found, lvl')
    ensures queue[1..] + found != [] ==> (queue[1..] + found)[0] in lvl' && lvl'[(queue[1..] + found)[0]] <= lvl[queue[0]] + 1
  {
    var d := lvl[queue[0]];
    var p := order + queue;
    var q := queue[1..] + found;
    forall v | v in q ensures v in lvl' && lvl'[v] <= d + 1 {
      if v in queue[1..] {
        assert v in queue;
      }
    }
    if q != [] {
      if queue[1..] != [] {
        assert q[0] == queue[1];
        assert p[|order|] == queue[0] && p[|order| + 1] == queue[1];
      } else {
        assert q[0] == found[0];
      }
      assert lvl'[q[0]] >= d;
      assert q[0] in q;
    }
  }

  /**
   * If the ball of radius d is visited and the head lies at level at most
   * d + 1, every vertex closer than the head has been output.
   */
  lemma FrontierNext(edges: seq<Edge>, s: int, order: seq<int>, queue: seq<int>, vis: set<int>, lvl: map<int, nat>, d: nat)
    requires forall v :: v in vis <==> v in order || v in queue
    requires lvl.Keys == vis
    requires ExactLevels(edges, s, lvl)
    requires LevelsSorted(order + queue, lvl)
    requires forall u :: WithinSteps(edges, s, u, d) ==> u in vis
    requires queue != [] ==> queue[0] in lvl && lvl[queue[0]] <= d + 1
    ensures Frontier(edges, s, queue, order, lvl)
  {
    if queue != [] {
      var h := queue[0];
      var p := order + queue;
      forall x | x in queue ensures lvl[h] <= lvl[x] {
        var t :| 0 <= t < |queue| && queue[t] == x;
        if t > 0 {
          assert p[|order|] == h && p[|order| + t] == x;
        }
      }
      forall u, k: nat | k < lvl[h] && WithinSteps(edges, s, u, k) ensures u in order {
        WithinMono(edges, s, u, k, d);
        LevelAtMost(edges, s, lvl, u, k);
      }
    }
  }

  lemma StepClosed(edges: seq<Edge>, n: nat, s: int, queue: seq<int>, vis: set<int>, order: seq<int>, lvl: map<int, nat>)
    requires BfsInv(edges, n, s, queue, vis, order, lvl) && queue != []
    ensures OutputClosed(edges, order + [queue[0]], Next(edges, queue, vis).0)
  {
    DiscoverSpec(Neighbours(edges, queue[0]), vis, queue[1..]);
    var r := Next(edges, queue, vis);
    forall u, w | u in order + [queue[0]] && EdgeExists(edges, u, w) ensures w in r.0 {
      if u == queue[0] {
        NeighboursIff(edges, queue[0], w);
      }
    }
  }

  /** When the queue is empty, the invariant gives every promised property of the output. */
  lemma BfsDone(edges: seq<Edge>, n: nat, s: int, vis: set<int>, order: seq<int>, lvl: map<int, nat>)
    requires BfsInv(edges, n, s, [], vis, order, lvl)
    ensures IsBfsOutput(edges, n, s, order)
  {
    assert order + [] == order;
    forall v | v in order ensures Connected(edges, s, v) {
      WithinConnected(edges, s, v, lvl[v]);
    }
    forall v | Connected(edges, s, v) ensures v in order {
      ClosedContains(edges, vis, s, v);
    }
    forall i, j | 0 <= i < j < |order| ensures NoFartherThan(edges, s, order[i], order[j]) {
      forall k: nat | WithinSteps(edges, s, order[j], k) ensures WithinSteps(edges, s, order[i], k) {
        LevelAtMost(edges, s, lvl, order[j], k);
        WithinMono(edges, s, order[i], lvl[order[i]], k);
      }
    }
    DistinctLength(order, VertexSet(n));
  }

  lemma {:induction false} BfsRunCorrect(edges: seq<Edge>, n: nat, s: int, queue: seq<int>, vis: set<int>, order: seq<int>, lvl: map<int, nat>)
    requires EndpointsWithin(edges, 1, n)
    requires BfsInv(edges, n, s, queue, vis, order, lvl)
    ensures IsBfsOutput(edges, n, s, BfsRun(edges, n, queue, vis, order))
    decreases VertexSet(n) - vis, |queue|
  {
    if queue == [] {
      BfsDone(edges, n, s, vis, order, lvl);
    } else {
      var r := Next(edges, queue, vis);
      BfsStep(edges, n, s, queue, vis, order, lvl);
      BfsRunUnfold(edges, n, queue, vis, order);
      BfsRunCorrect(edges, n, s, r.1, r.0, order + [queue[0]], NextLevels(edges, queue, vis, lvl));
    }
  }

  lemma BfsOrderCorrect(edges: seq<Edge>, n: nat, s: int)
    requires EndpointsWithin(edges, 1, n) && 1 <= s <= n
    ensures IsBfsOutput(edges, n, s, BfsOrder(edges, n, s))
  {
    var lvl := map[s := 0];
    WithinStart(edges, s);
    assert [] + [s] == [s];
    BfsRunCorrect(edges, n, s, [s], {s}, [], lvl);
  }


  /** The four neighbour scans of the traversal of the 4-cycle from vertex 1. */
  lemma CycleScans()
    ensures Discover([2, 4], {1}, []) == ({1, 2, 4}, [2, 4])
    ensures Discover([1, 3], {1, 2, 4}, [4]) == ({1, 2, 3, 4}, [4, 3])
    ensures Discover([3, 1], {1, 2, 3, 4}, [3]) == ({1, 2, 3, 4}, [3])
    ensures Discover([2, 4], {1, 2, 3, 4}, []) == ({1, 2, 3, 4}, [])
  {
    assert [2, 4][1..] == [4] && [1, 3][1..] == [3] && [3, 1][1..] == [1];
    assert [4][1..] == [] && [3][1..] == [] && [1][1..] == [];
    assert {1} + {2} == {1, 2} && {1, 2} + {4} == {1, 2, 4} && {1, 2, 4} + {3} == {1, 2, 3, 4};
    assert [] + [2] == [2] && [2] + [4] == [2, 4] && [4] + [3] == [4, 3];
    assert Discover([4], {1, 2}, [2]) == Discover([], {1, 2, 4}, [2, 4]);
    assert Discover([3], {1, 2, 4}, [4]) == Discover([], {1, 2, 3, 4}, [4, 3]);
  }

  /** On the 4-cycle from vertex 1, the traversal outputs 1, 2, 4, 3. */
  lemma BfsCycleExample()
    ensures EndpointsWithin(Cycle4(), 1, 4)
    ensures BfsOrder(Cycle4(), 4, 1) == [1, 2, 4, 3]
  {
    Cycle4Neighbours();
    BfsCycleRun(Cycle4());
  }

  /** The traversal from 1 on any graph on 1..4 whose lists are those of the 4-cycle. */
  lemma BfsCycleRun(c: seq<Edge>)
    requires EndpointsWithin(c, 1, 4)
    requires Neighbours(c, 1) == [2, 4] && Neighbours(c, 2) == [1, 3]
    requires Neighbours(c, 3) == [2, 4] && Neighbours(c, 4) == [3, 1]
    ensures BfsOrder(c, 4, 1) == [1, 2, 4, 3]
  {
    var all := {1, 2, 3, 4};
    CycleScans();
    assert [1][1..] == [] && [2, 4][1..] == [4] && [4, 3][1..] == [3] && [3][1..] == [];
    assert [] + [1] == [1] && [1] + [2] == [1, 2] && [1, 2] + [4] == [1, 2, 4] && [1, 2, 4] + [3] == [1, 2, 4, 3];
    BfsRunUnfold(c, 4, [1], {1}, []);
    assert BfsRun(c, 4, [1], {1}, []) == BfsRun(c, 4, [2, 4], {1, 2, 4}, [1]);
    BfsRunUnfold(c, 4, [2, 4], {1, 2, 4}, [1]);
    assert BfsRun(c, 4, [2, 4], {1, 2, 4}, [1]) == BfsRun(c, 4, [4, 3], all, [1, 2]);
    BfsRunUnfold(c, 4, [4, 3], all, [1, 2]);
    assert BfsRun(c, 4, [4, 3], all, [1, 2]) == BfsRun(c, 4, [3], all, [1, 2, 4]);
    BfsRunUnfold(c, 4, [3], all, [1, 2, 4]);
    assert BfsRun(c, 4, [3], all, [1, 2, 4]) == BfsRun(c, 4, [], all, [1, 2, 4, 3]);
  }
}
