/** Facts about sequences and finite sets of integers used by the graph modules. */
module Sequences {

  /** No element occurs twice. */
  predicate Distinct<T(==)>(s: seq<T>) {
    forall i, j :: 0 <= i < j < |s| ==> s[i] != s[j]
  }

  /** `idx` picks the elements of `a` out of `b`, in increasing positions. */
  ghost predicate SubsequenceVia<T>(a: seq<T>, b: seq<T>, idx: seq<int>) {
    && |idx| == |a|
    && (forall k :: 0 <= k < |idx| ==> 0 <= idx[k] < |b| && a[k] == b[idx[k]])
    && (forall k, l :: 0 <= k < l < |idx| ==> idx[k] < idx[l])
  }

  /** `a` is `b` with some elements dropped and the order kept. */
  ghost predicate IsSubsequence<T>(a: seq<T>, b: seq<T>) {
    exists idx :: SubsequenceVia(a, b, idx)
  }

  /** A sequence without repetitions drawn from a finite set is no longer than the set. */
  lemma {:induction false} DistinctLength(s: seq<int>, S: set<int>)
    requires Distinct(s)
    requires forall x :: x in s ==> x in S
    ensures |s| <= |S|
    decreases |s|
  {
    if s != [] {
      var last := s[|s| - 1];
      var init := s[..|s| - 1];
      assert forall x :: x in init ==> x in S - {last} by {
        forall x | x in init ensures x in S - {last} {
          var i :| 0 <= i < |init| && init[i] == x;
          assert s[i] == x && s[|s| - 1] == last;
        }
      }
      DistinctLength(init, S - {last});
      assert s[|s| - 1] in s;
    }
  }

  /** The set of values a sequence takes has at most as many elements as the sequence. */
  lemma {:induction false} ElementsSize(s: seq<int>)
    ensures |set x | x in s| <= |s|
    decreases |s|
  {
    if s != [] {
      var init := s[..|s| - 1];
      ElementsSize(init);
      assert (set x | x in s) == (set x | x in init) + {s[|s| - 1]} by {
        forall x | x in s ensures x in init || x == s[|s| - 1] {
          var i :| 0 <= i < |s| && s[i] == x;
          if i < |s| - 1 { assert init[i] == x; }
        }
      }
    } else {
      assert (set x | x in s) == {};
    }
  }
}
