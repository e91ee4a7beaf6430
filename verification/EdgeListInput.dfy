/**
 * The edge-list editor (src/components/EdgeListInput.tsx): the validation
 * pass that marks faulty rows, adding the first free pair, changing one
 * field of one row and deleting a row.
 *
 * The source keys unordered pairs by the string `[min, max].toString()`,
 * which is "min,max"; for integer endpoints that string determines the pair,
 * so the key is modelled as the pair (min, max) itself.
 */
module EdgeListInput {
  import opened GraphTypes

  /** The three row errors: endpoint out of range, loop, repeated pair. */
  datatype ErrorKind = OutOfRange | SelfLoop | Duplicate

  /** The editable fields of a row. */
  datatype Field = From | To | Weight

  /** edgeKey: the unordered pair {a, b} as (smaller, larger). */
  function EdgeKey(a: int, b: int): (int, int) {
    if a <= b then (a, b) else (b, a)
  }

  /** The key does not depend on the orientation, and it identifies the unordered pair. */
  lemma EdgeKeyUnordered(a: int, b: int, c: int, d: int)
    ensures EdgeKey(a, b) == EdgeKey(b, a)
    ensures EdgeKey(a, b) == EdgeKey(c, d) <==> (a == c && b == d) || (a == d && b == c)
  {
  }

  function Key(e: Edge): (int, int) {
    EdgeKey(e.from, e.to)
  }

  predicate InRange(e: Edge, n: int) {
    1 <= e.from <= n && 1 <= e.to <= n
  }

  /** A row that passes the range and loop checks; only such rows enter the seen set. */
  predicate Passes(e: Edge, n: int) {
    InRange(e, n) && e.from != e.to
  }

  /** An earlier row passing the range and loop checks has the same unordered pair as row `idx`. */
  ghost predicate SeenBefore(edges: seq<Edge>, n: int, idx: int)
    requires 0 <= idx < |edges|
  {
    exists j :: 0 <= j < idx && Passes(edges[j], n) && Key(edges[j]) == Key(edges[idx])
  }

  /** Row `idx` gets an error. */
  ghost predicate Flagged(edges: seq<Edge>, n: int, idx: int)
    requires 0 <= idx < |edges|
  {
    !Passes(edges[idx], n) || SeenBefore(edges, n, idx)
  }

  /** Every endpoint a vertex, no loops, and no unordered pair listed twice. */
  ghost predicate WellFormed(edges: seq<Edge>, n: int) {
    && EndpointsWithin(edges, 1, n)
    && LoopFree(edges)
    && forall i, j :: 0 <= i < j < |edges| ==> Key(edges[i]) != Key(edges[j])
  }

  /**
   * The validation pass of the effect: each row gets at most one error,
   * checked in the order range, loop, duplicate; the first row with a given
   * pair is error-free and marks the pair as seen.
   */
  method Validate(edges: seq<Edge>, vertices: int) returns (errors: map<int, ErrorKind>)
    ensures forall i :: i in errors <==> 0 <= i < |edges| && Flagged(edges, vertices, i)
    ensures forall i :: 0 <= i < |edges| && !InRange(edges[i], vertices) ==>
      i in errors && errors[i] == OutOfRange
    ensures forall i :: 0 <= i < |edges| && InRange(edges[i], vertices) && edges[i].from == edges[i].to ==>
      i in errors && errors[i] == SelfLoop
    ensures forall i :: 0 <= i < |edges| && Passes(edges[i], vertices) && SeenBefore(edges, vertices, i) ==>
      i in errors && errors[i] == Duplicate
    ensures errors == map[] <==> WellFormed(edges, vertices)
  {
    errors := map[];
    var seen: set<(int, int)> := {};
    var idx := 0;
    while idx < |edges|
      invariant 0 <= idx <= |edges|
      invariant seen == set j | 0 <= j < idx && Passes(edges[j], vertices) :: Key(edges[j])
      invariant forall i :: i in errors <==> 0 <= i < idx && Flagged(edges, vertices, i)
      invariant forall i :: i in errors ==> errors[i] == ErrorOf(edges, vertices, i)
    {
      var e := edges[idx];
      if e.from < 1 || e.to < 1 || e.from > vertices || e.to > vertices {
        errors := errors[idx := OutOfRange];
      } else if e.from == e.to {
        errors := errors[idx := SelfLoop];
      } else {
        var key := EdgeKey(e.from, e.to);
        if key in seen {
          errors := errors[idx := Duplicate];
        } else {
          seen := seen + {key};
        }
      }
      idx := idx + 1;
    }
    NoErrorsIffWellFormed(edges, vertices);
    if forall i :: 0 <= i < |edges| ==> !Flagged(edges, vertices, i) {
      forall i ensures i !in errors {
        if 0 <= i < |edges| {
          assert !Flagged(edges, vertices, i);
        }
      }
      assert errors.Keys == {};
    }
  }

  /** The error a flagged row carries: the first check it fails. */
  ghost function ErrorOf(edges: seq<Edge>, n: int, idx: int): ErrorKind
    requires 0 <= idx < |edges|
  {
    if !InRange(edges[idx], n) then OutOfRange
    else if edges[idx].from == edges[idx].to then SelfLoop
    else Duplicate
  }

  /** The error map is empty exactly when the list is well formed. */
  lemma NoErrorsIffWellFormed(edges: seq<Edge>, n: int)
    ensures (forall i :: 0 <= i < |edges| ==> !Flagged(edges, n, i)) <==> WellFormed(edges, n)
  {
    if forall i :: 0 <= i < |edges| ==> !Flagged(edges, n, i) {
      forall i | 0 <= i < |edges| ensures Passes(edges[i], n) {
        assert !Flagged(edges, n, i);
      }
      forall i, j | 0 <= i < j < |edges| ensures Key(edges[i]) != Key(edges[j]) {
        assert !Flagged(edges, n, i) && !Flagged(edges, n, j);
      }
    }
    if WellFormed(edges, n) {
      forall i | 0 <= i < |edges| ensures !Flagged(edges, n, i) {
        assert 1 <= edges[i].from <= n && 1 <= edges[i].to <= n && edges[i].from != edges[i].to;
      }
    }
  }

  // ---------------------------------------------------------------------
  // addEdge
  // ---------------------------------------------------------------------

  /** The number of unordered pairs of distinct vertices among 1..n. */
  function MaxEdges(n: nat): nat {
    n * (n - 1) / 2
  }

  /** (a, b) comes before (i, j) in lexicographic order. */
  predicate PairBefore(a: int, b: int, i: int, j: int) {
    a < i || (a == i && b < j)
  }

  /** Every pair of 1..n before (i, j) is already joined by an edge, in either orientation. */
  ghost predicate TakenBefore(edges: seq<Edge>, n: int, i: int, j: int) {
    forall a, b :: 1 <= a < b <= n && PairBefore(a, b, i, j) ==> EdgeExists(edges, a, b)
  }

  /** (i, j) is the lexicographically first pair i < j of 1..n that no edge joins. */
  ghost predicate FirstFreePair(edges: seq<Edge>, n: int, i: int, j: int) {
    1 <= i < j <= n && !EdgeExists(edges, i, j) && TakenBefore(edges, n, i, j)
  }

  /** Every pair of distinct vertices is already joined. */
  ghost predicate NoFreePair(edges: seq<Edge>, n: int) {
    forall a, b :: 1 <= a < b <= n ==> EdgeExists(edges, a, b)
  }

  function NewWeight(isWeighted: bool): Option<int> {
    if isWeighted then Some(1) else None
  }

  /**
   * addEdge: nothing happens when the list already has n(n-1)/2 rows;
   * otherwise the pairs (i, j), i < j, are tried in lexicographic order and
   * the first one that no row joins is appended, with weight 1 in a weighted
   * graph.
   */
  method AddEdge(edges: seq<Edge>, vertices: nat, isWeighted: bool) returns (r: seq<Edge>)
    ensures |edges| >= MaxEdges(vertices) ==> r == edges
    ensures |edges| < MaxEdges(vertices) ==>
      || (r == edges && NoFreePair(edges, vertices))
      || exists i, j :: FirstFreePair(edges, vertices, i, j) && r == edges + [Edge(i, j, NewWeight(isWeighted))]
    ensures WellFormed(edges, vertices) ==> WellFormed(r, vertices)
    ensures WellFormed(edges, vertices) && |edges| < MaxEdges(vertices) ==> |r| == |edges| + 1
  {
    r := edges;
    if |edges| >= MaxEdges(vertices) {
      return;
    }
    var i := 1;
    while i <= vertices
      invariant 1 <= i <= vertices + 1
      invariant TakenBefore(edges, vertices, i, i + 1)
    {
      var j := i + 1;
      while j <= vertices
        invariant i + 1 <= j <= vertices + 1
        invariant TakenBefore(edges, vertices, i, j)
      {
        if !EdgeExists(edges, i, j) {
          r := edges + [Edge(i, j, NewWeight(isWeighted))];
          assert FirstFreePair(edges, vertices, i, j);
          if WellFormed(edges, vertices) {
            AddKeepsWellFormed(edges, vertices, i, j, NewWeight(isWeighted));
          }
          return;
        }
        j := j + 1;
      }
      i := i + 1;
    }
    if WellFormed(edges, vertices) {
      FreePairExists(edges, vertices);
    }
  }

  /** There is only one first free pair. */
  lemma FirstFreeUnique(edges: seq<Edge>, n: int, i: int, j: int, i': int, j': int)
    requires FirstFreePair(edges, n, i, j) && FirstFreePair(edges, n, i', j')
    ensures i == i' && j == j'
  {
  }

  /** Appending the first free pair keeps a well-formed list well formed. */
  lemma AddKeepsWellFormed(edges: seq<Edge>, n: int, i: int, j: int, w: Option<int>)
    requires WellFormed(edges, n) && FirstFreePair(edges, n, i, j)
    ensures WellFormed(edges + [Edge(i, j, w)], n)
  {
    var r := edges + [Edge(i, j, w)];
    forall a, b | 0 <= a < b < |r| ensures Key(r[a]) != Key(r[b]) {
      if b == |edges| && Key(r[a]) == Key(r[b]) {
        assert Joins(edges[a], i, j);
      }
    }
  }

  /**
   * The guard n(n-1)/2 is exact for a well-formed list: with fewer rows than
   * that, some pair is still free, so addEdge appends.
   */
  lemma FreePairExists(edges: seq<Edge>, n: nat)
    requires WellFormed(edges, n) && |edges| < MaxEdges(n)
    ensures !NoFreePair(edges, n)
  {
    if NoFreePair(edges, n) {
      forall p | p in AllPairs(n) ensures p in KeysOf(edges) {
        var a, b :| 1 <= a < b <= n && p == (a, b);
        assert EdgeExists(edges, a, b);
        var k :| 0 <= k < |edges| && Joins(edges[k], a, b);
        assert Key(edges[k]) == p;
        KeysOfContains(edges, k);
      }
      AllPairsSize(n);
      DistinctKeys(edges, n);
      SubsetSize(AllPairs(n), KeysOf(edges));
    }
  }

  lemma {:induction false} SubsetSize<T>(a: set<T>, b: set<T>)
    requires a <= b
    ensures |a| <= |b|
    decreases |a|
  {
    if a != {} {
      var x :| x in a;
      SubsetSize(a - {x}, b - {x});
    }
  }

  /** The pairs (a, b) with 1 <= a < b <= n. */
  function AllPairs(n: int): set<(int, int)> {
    set a, b | 1 <= a < b <= n :: (a, b)
  }

  /** The pairs (a, m) with 1 <= a < k. */
  function PairsWith(m: int, k: int): set<(int, int)> {
    set a | 1 <= a < k :: (a, m)
  }

  lemma {:induction false} PairsWithSize(m: int, k: nat)
    ensures |PairsWith(m, k)| == if k >= 1 then k - 1 else 0
    decreases k
  {
    if k > 1 {
      PairsWithSize(m, k - 1);
      assert PairsWith(m, k) == PairsWith(m, k - 1) + {(k - 1, m)};
    } else {
      assert PairsWith(m, k) == {};
    }
  }

  lemma {:induction false} AllPairsSize(n: nat)
    ensures |AllPairs(n)| == MaxEdges(n)
    decreases n
  {
    if n == 0 {
      assert AllPairs(n) == {};
    } else {
      AllPairsSize(n - 1);
      PairsWithSize(n, n);
      assert AllPairs(n) == AllPairs(n - 1) + PairsWith(n, n);
      assert AllPairs(n - 1) * PairsWith(n, n) == {};
      assert n * (n - 1) == (n - 1) * (n - 2) + 2 * (n - 1);
    }
  }

  /** The keys of the rows. */
  function KeysOf(edges: seq<Edge>): set<(int, int)>
    decreases |edges|
  {
    if edges == [] then {} else KeysOf(edges[..|edges| - 1]) + {Key(edges[|edges| - 1])}
  }

  lemma {:induction false} KeysOfContains(edges: seq<Edge>, k: int)
    requires 0 <= k < |edges|
    ensures Key(edges[k]) in KeysOf(edges)
    decreases |edges|
  {
    if k < |edges| - 1 {
      KeysOfContains(edges[..|edges| - 1], k);
    }
  }

  lemma {:induction false} KeysOfMembers(edges: seq<Edge>, p: (int, int))
    requires p in KeysOf(edges)
    ensures exists k :: 0 <= k < |edges| && Key(edges[k]) == p
    decreases |edges|
  {
    if p != Key(edges[|edges| - 1]) {
      KeysOfMembers(edges[..|edges| - 1], p);
      var k :| 0 <= k < |edges| - 1 && Key(edges[..|edges| - 1][k]) == p;
      assert Key(edges[k]) == p;
    }
  }

  /** Distinct keys: as many keys as rows. */
  lemma {:induction false} DistinctKeys(edges: seq<Edge>, n: int)
    requires WellFormed(edges, n)
    ensures |KeysOf(edges)| == |edges|
    decreases |edges|
  {
    if edges != [] {
      var init := edges[..|edges| - 1];
      assert WellFormed(init, n);
      DistinctKeys(init, n);
      if Key(edges[|edges| - 1]) in KeysOf(init) {
        KeysOfMembers(init, Key(edges[|edges| - 1]));
      }
    }
  }

  // ---------------------------------------------------------------------
  // handleChange and delete
  // ---------------------------------------------------------------------

  /** The value a field shows for an edge; an absent weight reads as 1. */
  function FieldValue(e: Edge, field: Field): int {
    match field
    case From => e.from
    case To => e.to
    case Weight => e.weight.GetOr(1)
  }

  /**
   * handleChange: a copy of the list in which row `idx` has `field` set to
   * the parsed value and every other field and row is as before.
   */
  function HandleChange(edges: seq<Edge>, idx: int, field: Field, value: int): (r: seq<Edge>)
    requires 0 <= idx < |edges|
    ensures |r| == |edges|
    ensures forall i :: 0 <= i < |r| && i != idx ==> r[i] == edges[i]
    ensures FieldValue(r[idx], field) == value
    ensures forall f :: f != field ==> FieldValue(r[idx], f) == FieldValue(edges[idx], f)
    ensures field != From ==> r[idx].from == edges[idx].from
    ensures field != To ==> r[idx].to == edges[idx].to
    ensures field != Weight ==> r[idx].weight == edges[idx].weight
    ensures field == Weight ==> r[idx].weight == Some(value)
  {
    var e := edges[idx];
    var e' := match field
      case From => e.(from := value)
      case To => e.(to := value)
      case Weight => e.(weight := Some(value));
    edges[idx := e']
  }

  /** Typing the old value back into an endpoint field restores the list. */
  lemma ChangeBack(edges: seq<Edge>, idx: int, field: Field, value: int)
    requires 0 <= idx < |edges| && field != Weight
    ensures HandleChange(HandleChange(edges, idx, field, value), idx, field, FieldValue(edges[idx], field)) == edges
  {
  }

  /** The `filter` that drops index `idx` from the first `k` rows. */
  function KeepOthers(edges: seq<Edge>, idx: int, k: nat): (r: seq<Edge>)
    requires k <= |edges|
    ensures r == if 0 <= idx < k then edges[..idx] + edges[idx + 1..k] else edges[..k]
    decreases k
  {
    if k == 0 then []
    else KeepOthers(edges, idx, k - 1) + (if k - 1 != idx then [edges[k - 1]] else [])
  }

  /** Delete: every row but `idx`, in order; an index outside the list removes nothing. */
  function Delete(edges: seq<Edge>, idx: int): (r: seq<Edge>)
    ensures 0 <= idx < |edges| ==> |r| == |edges| - 1
    ensures 0 <= idx < |edges| ==> forall i :: 0 <= i < |r| ==> r[i] == if i < idx then edges[i] else edges[i + 1]
    ensures !(0 <= idx < |edges|) ==> r == edges
  {
    KeepOthers(edges, idx, |edges|)
  }

  /** Deleting a row keeps a well-formed list well formed. */
  lemma DeleteKeepsWellFormed(edges: seq<Edge>, n: int, idx: int)
    requires WellFormed(edges, n)
    ensures WellFormed(Delete(edges, idx), n)
  {
    var r := Delete(edges, idx);
    if 0 <= idx < |edges| {
      forall a, b | 0 <= a < b < |r| ensures Key(r[a]) != Key(r[b]) {
        var a', b' := if a < idx then a else a + 1, if b < idx then b else b + 1;
        assert r[a] == edges[a'] && r[b] == edges[b'] && a' < b';
      }
      forall a | 0 <= a < |r| ensures 1 <= r[a].from <= n && 1 <= r[a].to <= n && r[a].from != r[a].to {
        assert r[a] == edges[if a < idx then a else a + 1];
      }
    }
  }
}
