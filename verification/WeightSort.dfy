/**
 * The edge order Kruskal's selection works in (src/graph/algorithms/kruskal.ts).
 * The source copies the edge list and sorts it with `Array.prototype.sort`
 * and the comparator `(a.weight ?? 1) - (b.weight ?? 1)`. Since ES2019 the
 * ECMAScript language specification requires that sort to be stable, so the
 * result is fully determined: sorted by weight, and edges of equal weight in
 * their input order. `SortByWeight` is a stable insertion sort producing
 * exactly that sequence (`SortUnique` shows that no other sequence has both
 * properties).
 */
module WeightSort {
  import opened GraphTypes

  /** The weight the comparator reads: a missing weight counts as 1. */
  function Weight(e: Edge): int {
    e.weight.GetOr(1)
  }

  predicate SortedByWeight(s: seq<Edge>) {
    forall i, j :: 0 <= i < j < |s| ==> Weight(s[i]) <= Weight(s[j])
  }

  /** The edges of `s` whose weight is `w`, in their order in `s`. */
  function WithWeight(s: seq<Edge>, w: int): seq<Edge> {
    if s == [] then []
    else WithWeight(s[..|s| - 1], w) + (if Weight(s[|s| - 1]) == w then [s[|s| - 1]] else [])
  }

  /** `r` is what a stable sort by weight makes of `s`. */
  ghost predicate IsStableSort(r: seq<Edge>, s: seq<Edge>) {
    && SortedByWeight(r)
    && multiset(r) == multiset(s)
    && forall w :: WithWeight(r, w) == WithWeight(s, w)
  }

  /** Places `e` after every edge of the sorted `s` whose weight is at most its own. */
  function Insert(s: seq<Edge>, e: Edge): (r: seq<Edge>)
    ensures |r| == |s| + 1
    ensures forall x :: x in r <==> x in s || x == e
  {
    if s == [] || Weight(s[|s| - 1]) <= Weight(e) then s + [e]
    else
      assert s == s[..|s| - 1] + [s[|s| - 1]];
      Insert(s[..|s| - 1], e) + [s[|s| - 1]]
  }

  /** The copy of `s` sorted by weight: the same edges, as many of them. */
  function SortByWeight(s: seq<Edge>): (r: seq<Edge>)
    ensures |r| == |s|
    ensures forall x :: x in r <==> x in s
  {
    if s == [] then []
    else
      assert s == s[..|s| - 1] + [s[|s| - 1]];
      Insert(SortByWeight(s[..|s| - 1]), s[|s| - 1])
  }

  lemma {:induction false} WithWeightAppend(a: seq<Edge>, b: seq<Edge>, w: int)
    ensures WithWeight(a + b, w) == WithWeight(a, w) + WithWeight(b, w)
    decreases |b|
  {
    if b != [] {
      var b' := b[..|b| - 1];
      assert (a + b)[..|a + b| - 1] == a + b';
      WithWeightAppend(a, b', w);
    } else {
      assert a + b == a;
    }
  }

  lemma {:induction false} InsertPerm(s: seq<Edge>, e: Edge)
    ensures multiset(Insert(s, e)) == multiset(s) + multiset{e}
    decreases |s|
  {
    if s != [] && Weight(s[|s| - 1]) > Weight(e) {
      var init := s[..|s| - 1];
      assert s == init + [s[|s| - 1]];
      InsertPerm(init, e);
    }
  }

  lemma {:induction false} InsertSorted(s: seq<Edge>, e: Edge)
    requires SortedByWeight(s)
    ensures SortedByWeight(Insert(s, e))
    decreases |s|
  {
    if s != [] && Weight(s[|s| - 1]) > Weight(e) {
      var init, last := s[..|s| - 1], s[|s| - 1];
      assert s == init + [last];
      InsertSorted(init, e);
      InsertPerm(init, e);
      var r := Insert(init, e);
      forall i, j | 0 <= i < j < |r + [last]| ensures Weight((r + [last])[i]) <= Weight((r + [last])[j]) {
        if j == |r| {
          var x := r[i];
          assert x in multiset(r);
          if x != e {
            assert x in multiset(init);
          }
        }
      }
    }
  }

  lemma {:induction false} InsertStable(s: seq<Edge>, e: Edge, w: int)
    ensures WithWeight(Insert(s, e), w) == WithWeight(s, w) + WithWeight([e], w)
    decreases |s|
  {
    if s == [] || Weight(s[|s| - 1]) <= Weight(e) {
      WithWeightAppend(s, [e], w);
    } else {
      var init, last := s[..|s| - 1], s[|s| - 1];
      assert s == init + [last];
      var r := Insert(init, e);
      var L, E := WithWeight([last], w), WithWeight([e], w);
      assert [last][..0] == [] == [e][..0];
      assert L == (if Weight(last) == w then [last] else []);
      assert E == (if Weight(e) == w then [e] else []);
      calc {
        WithWeight(Insert(s, e), w);
        { assert Insert(s, e) == r + [last]; }
        WithWeight(r + [last], w);
        { WithWeightAppend(r, [last], w); }
        WithWeight(r, w) + L;
        { InsertStable(init, e, w); }
        WithWeight(init, w) + E + L;
        WithWeight(init, w) + L + E;
        { WithWeightAppend(init, [last], w); }
        WithWeight(s, w) + E;
      }
    }
  }

  /** The insertion sort is a stable sort by weight. */
  lemma {:induction false} SortSpec(s: seq<Edge>)
    ensures IsStableSort(SortByWeight(s), s)
    decreases |s|
  {
    if s != [] {
      var init, last := s[..|s| - 1], s[|s| - 1];
      assert s == init + [last];
      SortSpec(init);
      InsertSorted(SortByWeight(init), last);
      InsertPerm(SortByWeight(init), last);
      forall w ensures WithWeight(SortByWeight(s), w) == WithWeight(s, w) {
        InsertStable(SortByWeight(init), last, w);
        WithWeightAppend(init, [last], w);
      }
    }
  }

  /** Two sequences sorted by weight that agree on every weight class are equal. */
  lemma {:induction false} SortUnique(a: seq<Edge>, b: seq<Edge>)
    requires SortedByWeight(a) && SortedByWeight(b)
    requires forall w :: WithWeight(a, w) == WithWeight(b, w)
    ensures a == b
    decreases |a| + |b|
  {
    if a == [] || b == [] {
      LastClass(a);
      LastClass(b);
    } else {
      var a', b' := a[..|a| - 1], b[..|b| - 1];
      HeaviestLast(a, b);
      HeaviestLast(b, a);
      assert WithWeight(a, Weight(a[|a| - 1])) == WithWeight(b, Weight(a[|a| - 1]));
      forall w ensures WithWeight(a', w) == WithWeight(b', w) {
        DropLast(a, b, w);
      }
      SortUnique(a', b');
      assert a == a' + [a[|a| - 1]] && b == b' + [b[|b| - 1]];
    }
  }

  /** Removing the same last edge from two sequences keeps their weight classes equal. */
  lemma DropLast(a: seq<Edge>, b: seq<Edge>, w: int)
    requires a != [] && b != [] && a[|a| - 1] == b[|b| - 1]
    requires WithWeight(a, w) == WithWeight(b, w)
    ensures WithWeight(a[..|a| - 1], w) == WithWeight(b[..|b| - 1], w)
  {
    var ra, rb := WithWeight(a[..|a| - 1], w), WithWeight(b[..|b| - 1], w);
    var x := a[|a| - 1];
    var X := if Weight(x) == w then [x] else [];
    assert WithWeight(a, w) == ra + X;
    assert WithWeight(b, w) == rb + X;
    assert ra == (ra + X)[..|ra|];
    assert rb == (rb + X)[..|rb|];
  }

  lemma {:induction false} WithWeightMembers(s: seq<Edge>, w: int, x: Edge)
    requires x in WithWeight(s, w)
    ensures x in s && Weight(x) == w
    decreases |s|
  {
    if x in WithWeight(s[..|s| - 1], w) {
      WithWeightMembers(s[..|s| - 1], w, x);
    }
  }

  /** A non-empty sequence has a non-empty weight class: that of its last edge. */
  lemma LastClass(s: seq<Edge>)
    ensures s != [] ==> WithWeight(s, Weight(s[|s| - 1])) != []
  {
  }

  /** The last weight of a sorted `a` occurs in `b`, so it is at most `b`'s last weight. */
  lemma HeaviestLast(a: seq<Edge>, b: seq<Edge>)
    requires a != [] && b != [] && SortedByWeight(b)
    requires forall w :: WithWeight(a, w) == WithWeight(b, w)
    ensures Weight(a[|a| - 1]) <= Weight(b[|b| - 1])
    ensures Weight(a[|a| - 1]) == Weight(b[|b| - 1]) ==>
      WithWeight(a, Weight(a[|a| - 1]))[|WithWeight(a, Weight(a[|a| - 1]))| - 1] == a[|a| - 1]
  {
    var w := Weight(a[|a| - 1]);
    assert WithWeight(a, w) == WithWeight(a[..|a| - 1], w) + [a[|a| - 1]];
    var x := a[|a| - 1];
    assert x in WithWeight(b, w);
    WithWeightMembers(b, w, x);
    var k :| 0 <= k < |b| && b[k] == x;
    assert k == |b| - 1 || Weight(b[k]) <= Weight(b[|b| - 1]);
  }

  /** The edges of `s` of weight at most `w`, in their order in `s`. */
  function Light(s: seq<Edge>, w: int): seq<Edge> {
    if s == [] then []
    else Light(s[..|s| - 1], w) + (if Weight(s[|s| - 1]) <= w then [s[|s| - 1]] else [])
  }

  lemma {:induction false} LightMembers(s: seq<Edge>, w: int, x: Edge)
    requires x in Light(s, w)
    ensures x in s && Weight(x) <= w
    decreases |s|
  {
    if x in Light(s[..|s| - 1], w) {
      LightMembers(s[..|s| - 1], w, x);
    }
  }

  /**
   * In a sequence sorted by weight the edges of weight at most w come first:
   * position j holds one of them exactly when j is below their count.
   */
  lemma {:induction false} LightSorted(s: seq<Edge>, w: int)
    requires SortedByWeight(s)
    ensures |Light(s, w)| <= |s|
    ensures forall j :: 0 <= j < |s| ==> (j < |Light(s, w)| <==> Weight(s[j]) <= w)
    decreases |s|
  {
    if s != [] {
      var init := s[..|s| - 1];
      assert SortedByWeight(init) by {
        forall i, j | 0 <= i < j < |init| ensures Weight(init[i]) <= Weight(init[j]) {
          assert init[i] == s[i] && init[j] == s[j];
        }
      }
      LightSorted(init, w);
      if Weight(s[|s| - 1]) <= w {
        assert forall j :: 0 <= j < |init| ==> Weight(s[j]) <= Weight(s[|s| - 1]);
        assert |Light(init, w)| == |init|;
      }
      forall j | 0 <= j < |s| - 1 ensures s[j] == init[j] {
      }
    }
  }

  /** A prefix of `s` whose edges all weigh at most w is counted among the light edges of `s`. */
  lemma {:induction false} LightPrefix(s: seq<Edge>, p: seq<Edge>, w: int)
    requires |p| <= |s| && s[..|p|] == p
    requires forall e :: e in p ==> Weight(e) <= w
    ensures |p| <= |Light(s, w)|
    decreases |s|
  {
    if s != [] {
      var init := s[..|s| - 1];
      if |p| < |s| {
        assert init[..|p|] == p;
        LightPrefix(init, p, w);
      } else {
        assert s == p && s[|s| - 1] in p;
        assert init[..|init|] == init;
        assert forall e :: e in init ==> e in p;
        LightPrefix(init, init, w);
      }
    }
  }

  lemma {:induction false} InsertLight(s: seq<Edge>, e: Edge, w: int)
    ensures |Light(Insert(s, e), w)| == |Light(s, w)| + |Light([e], w)|
    decreases |s|
  {
    assert [e][..0] == [];
    if s == [] || Weight(s[|s| - 1]) <= Weight(e) {
      assert (s + [e])[..|s|] == s;
    } else {
      var init, r := s[..|s| - 1], Insert(s[..|s| - 1], e);
      assert (r + [s[|s| - 1]])[..|r|] == r;
      InsertLight(init, e, w);
    }
  }

  /** Sorting keeps the number of edges of weight at most w. */
  lemma {:induction false} SortLight(s: seq<Edge>, w: int)
    ensures |Light(SortByWeight(s), w)| == |Light(s, w)|
    decreases |s|
  {
    if s != [] {
      var init, last := s[..|s| - 1], s[|s| - 1];
      SortLight(init, w);
      InsertLight(SortByWeight(init), last, w);
      assert [last][..0] == [];
    }
  }
}
