/**
  The order that a stable sort must produce, and the bottom-up merging that produces it.

  A list that is being sorted is described by the positions its elements had in the
  original list: `items` is that original list, and every state of the sort is a sequence
  of indices into it.  Two elements that compare equal keep their original order exactly
  when ties are broken by index, so "stable" is part of the order itself.
  */
module StableOrder {

  /** What HASH_SRT needs from its comparison function; only the test `<= 0` is ever used. */
  ghost predicate TotalPreorder<V(!new)>(cmp: (V, V) -> int)
  {
    && (forall x, y :: cmp(x, y) <= 0 || cmp(y, x) <= 0)
    && (forall x, y, z :: cmp(x, y) <= 0 && cmp(y, z) <= 0 ==> cmp(x, z) <= 0)
  }

  /** Element `i` must come before element `j` in a stable result. */
  ghost predicate Before<V>(items: seq<V>, cmp: (V, V) -> int, i: nat, j: nat)
  {
    && i < |items| && j < |items|
    && cmp(items[i], items[j]) <= 0
    && (cmp(items[j], items[i]) <= 0 ==> i < j)
  }

  lemma BeforeIsTransitive<V(!new)>(items: seq<V>, cmp: (V, V) -> int, i: nat, j: nat, k: nat)
    requires TotalPreorder(cmp)
    requires Before(items, cmp, i, j) && Before(items, cmp, j, k)
    ensures Before(items, cmp, i, k)
  {
    var x, y, z := items[i], items[j], items[k];
    assert cmp(x, z) <= 0;
    if cmp(z, x) <= 0 {
      assert cmp(z, y) <= 0 && cmp(y, x) <= 0;
    }
  }

  ghost predicate Sorted<V>(items: seq<V>, cmp: (V, V) -> int, s: seq<nat>)
  {
    forall a, b :: 0 <= a < b < |s| ==> Before(items, cmp, s[a], s[b])
  }

  /** `perm` lists every element of `items` exactly once, in stable order. */
  ghost predicate IsStableSort<V>(items: seq<V>, cmp: (V, V) -> int, perm: seq<nat>)
  {
    && |perm| == |items|
    && (forall k :: 0 <= k < |perm| ==> perm[k] < |items|)
    && (forall a, b :: 0 <= a < b < |perm| ==> perm[a] != perm[b])
    && Sorted(items, cmp, perm)
  }

  /** There is only one stable result, so IsStableSort says everything about it. */
  lemma {:induction false} StableSortIsUnique<V(!new)>(items: seq<V>, cmp: (V, V) -> int, p: seq<nat>, q: seq<nat>)
    requires IsStableSort(items, cmp, p) && IsStableSort(items, cmp, q)
    ensures p == q
  {
    AllIndicesOccur(p, |items|);
    AllIndicesOccur(q, |items|);
    SortedIsUnique(items, cmp, p, q);
  }

  lemma {:induction false} SortedIsUnique<V(!new)>(items: seq<V>, cmp: (V, V) -> int, p: seq<nat>, q: seq<nat>)
    requires Sorted(items, cmp, p) && Sorted(items, cmp, q)
    requires |p| == |q| && forall x :: x in p <==> x in q
    ensures p == q
  {
    if p != [] {
      assert p[0] in q && q[0] in p;
      SameHead(items, cmp, p, q);
      Tail(items, cmp, p);
      Tail(items, cmp, q);
      SortedIsUnique(items, cmp, p[1..], q[1..]);
      assert p == [p[0]] + p[1..] && q == [q[0]] + q[1..];
    }
  }

  lemma SameHead<V(!new)>(items: seq<V>, cmp: (V, V) -> int, p: seq<nat>, q: seq<nat>)
    requires Sorted(items, cmp, p) && Sorted(items, cmp, q)
    requires p != [] && q != [] && p[0] in q && q[0] in p
    ensures p[0] == q[0]
  {
    var i :| 0 <= i < |q| && q[i] == p[0];
    var j :| 0 <= j < |p| && p[j] == q[0];
    if i > 0 && j > 0 {
      NotBoth(items, cmp, p[0], q[0]);
    }
  }

  lemma NotBoth<V>(items: seq<V>, cmp: (V, V) -> int, x: nat, y: nat)
    ensures !(Before(items, cmp, x, y) && Before(items, cmp, y, x))
  {
  }

  lemma Tail<V>(items: seq<V>, cmp: (V, V) -> int, p: seq<nat>)
    requires p != [] && Sorted(items, cmp, p)
    ensures Sorted(items, cmp, p[1..]) && forall x :: x in p[1..] <==> x in p && x != p[0]
  {
    forall x | x in p && x != p[0] ensures x in p[1..] {
      var i :| 0 <= i < |p| && p[i] == x;
      assert p[1..][i - 1] == x;
    }
    forall i | 1 <= i < |p| ensures p[i] != p[0] {
      assert Before(items, cmp, p[0], p[i]);
      NotBoth(items, cmp, p[0], p[0]);
    }
  }

  /** The indices below n, as a set. */
  ghost function Below(n: nat): (s: set<nat>)
    ensures |s| == n
    ensures forall x :: x in s <==> 0 <= x < n
  {
    if n == 0 then {} else Below(n - 1) + {n - 1}
  }

  /** Pigeonhole: n distinct indices below n are all the indices below n. */
  lemma {:induction false} AllIndicesOccur(s: seq<nat>, n: nat)
    requires |s| == n
    requires forall k :: 0 <= k < |s| ==> s[k] < n
    requires forall a, b :: 0 <= a < b < |s| ==> s[a] != s[b]
    ensures forall x :: 0 <= x < n ==> x in s
  {
    var S := set x | x in s;
    DistinctCardinality(s, S);
    assert S <= Below(n);
    assert |Below(n) - S| == 0;
    forall x | 0 <= x < n ensures x in s {
      assert x in Below(n);
      assert x !in Below(n) - S;
    }
  }

  lemma {:induction false} DistinctCardinality(s: seq<nat>, S: set<nat>)
    requires forall a, b :: 0 <= a < b < |s| ==> s[a] != s[b]
    requires S == set x | x in s
    ensures |S| == |s|
  {
    if s == [] {
    } else {
      var t := s[..|s| - 1];
      var T := set x | x in t;
      DistinctCardinality(t, T);
      assert s == t + [s[|s| - 1]];
      assert S == T + {s[|s| - 1]};
    }
  }

  // ---------------------------------------------------------------------------------
  // Merging

  ghost function Merge<V>(items: seq<V>, cmp: (V, V) -> int, a: seq<nat>, b: seq<nat>): seq<nat>
  {
    if a == [] then b
    else if b == [] then a
    else if a[0] < |items| && b[0] < |items| && cmp(items[a[0]], items[b[0]]) <= 0 then
      [a[0]] + Merge(items, cmp, a[1..], b)
    else
      [b[0]] + Merge(items, cmp, a, b[1..])
  }

  /** A run: sorted, and a rearrangement of the original elements lo .. lo + |run|. */
  ghost predicate RunAt<V>(items: seq<V>, cmp: (V, V) -> int, run: seq<nat>, lo: nat)
  {
    && lo + |run| <= |items|
    && Sorted(items, cmp, run)
    && forall k :: 0 <= k < |run| ==> lo <= run[k] < lo + |run|
  }

  lemma {:induction false} MergeElements<V>(items: seq<V>, cmp: (V, V) -> int, a: seq<nat>, b: seq<nat>)
    ensures multiset(Merge(items, cmp, a, b)) == multiset(a) + multiset(b)
    ensures |Merge(items, cmp, a, b)| == |a| + |b|
    ensures forall x :: x in Merge(items, cmp, a, b) ==> x in a || x in b
  {
    if a == [] || b == [] {
    } else {
      assert a == [a[0]] + a[1..] && b == [b[0]] + b[1..];
      MergeElements(items, cmp, a[1..], b);
      MergeElements(items, cmp, a, b[1..]);
    }
  }

  lemma {:induction false} MergeSorted<V(!new)>(items: seq<V>, cmp: (V, V) -> int, a: seq<nat>, b: seq<nat>, mid: nat)
    requires TotalPreorder(cmp)
    requires Sorted(items, cmp, a) && Sorted(items, cmp, b)
    requires forall k :: 0 <= k < |a| ==> a[k] < mid && a[k] < |items|
    requires forall k :: 0 <= k < |b| ==> mid <= b[k] < |items|
    ensures Sorted(items, cmp, Merge(items, cmp, a, b))
  {
    if a == [] || b == [] {
    } else if cmp(items[a[0]], items[b[0]]) <= 0 {
      var rest := Merge(items, cmp, a[1..], b);
      MergeSorted(items, cmp, a[1..], b, mid);
      assert Before(items, cmp, a[0], b[0]);
      HeadIsBeforeAll(items, cmp, a[0], a[1..], b);
    } else {
      var rest := Merge(items, cmp, a, b[1..]);
      MergeSorted(items, cmp, a, b[1..], mid);
      assert Before(items, cmp, b[0], a[0]);
      HeadIsBeforeAll(items, cmp, b[0], a, b[1..]);
    }
  }

  /** What comes before the first element of each of two sorted runs (or before all of one) comes before their merge. */
  lemma HeadIsBeforeAll<V(!new)>(items: seq<V>, cmp: (V, V) -> int, x: nat, a: seq<nat>, b: seq<nat>)
    requires TotalPreorder(cmp)
    requires Sorted(items, cmp, a) && Sorted(items, cmp, b)
    requires (a != [] ==> Before(items, cmp, x, a[0])) && (b != [] ==> Before(items, cmp, x, b[0]))
    ensures forall k :: 0 <= k < |Merge(items, cmp, a, b)| ==> Before(items, cmp, x, Merge(items, cmp, a, b)[k])
  {
    var m := Merge(items, cmp, a, b);
    MergeElements(items, cmp, a, b);
    forall k | 0 <= k < |m| ensures Before(items, cmp, x, m[k]) {
      assert m[k] in m;
      if m[k] in a {
        var i :| 0 <= i < |a| && a[i] == m[k];
        if i > 0 { BeforeIsTransitive(items, cmp, x, a[0], a[i]); }
      } else {
        var i :| 0 <= i < |b| && b[i] == m[k];
        if i > 0 { BeforeIsTransitive(items, cmp, x, b[0], b[i]); }
      }
    }
  }

  lemma MergeRuns<V(!new)>(items: seq<V>, cmp: (V, V) -> int, a: seq<nat>, b: seq<nat>, lo: nat)
    requires TotalPreorder(cmp)
    requires RunAt(items, cmp, a, lo) && RunAt(items, cmp, b, lo + |a|)
    ensures RunAt(items, cmp, Merge(items, cmp, a, b), lo)
    ensures |Merge(items, cmp, a, b)| == |a| + |b|
  {
    var m := Merge(items, cmp, a, b);
    MergeElements(items, cmp, a, b);
    MergeSorted(items, cmp, a, b, lo + |a|);
    forall k | 0 <= k < |m| ensures lo <= m[k] < lo + |m| {
      assert m[k] in m;
    }
  }

  // ---------------------------------------------------------------------------------
  // Passes

  ghost function Flatten(runs: seq<seq<nat>>): seq<nat>
  {
    if runs == [] then [] else runs[0] + Flatten(runs[1..])
  }

  /** Consecutive runs starting at original index `lo`, all of width `w` but perhaps the last. */
  ghost predicate GoodRuns<V>(items: seq<V>, cmp: (V, V) -> int, runs: seq<seq<nat>>, w: nat, lo: nat)
  {
    runs == [] ||
    (&& RunAt(items, cmp, runs[0], lo)
     && 0 < |runs[0]| <= w
     && (|runs| > 1 ==> |runs[0]| == w)
     && GoodRuns(items, cmp, runs[1..], w, lo + |runs[0]|))
  }

  ghost function MergePass<V>(items: seq<V>, cmp: (V, V) -> int, runs: seq<seq<nat>>): seq<seq<nat>>
  {
    if |runs| == 0 then []
    else if |runs| == 1 then [Merge(items, cmp, runs[0], [])]
    else [Merge(items, cmp, runs[0], runs[1])] + MergePass(items, cmp, runs[2..])
  }

  lemma {:induction false} MergePassGood<V(!new)>(items: seq<V>, cmp: (V, V) -> int, runs: seq<seq<nat>>, w: nat, lo: nat)
    requires TotalPreorder(cmp)
    requires GoodRuns(items, cmp, runs, w, lo)
    ensures GoodRuns(items, cmp, MergePass(items, cmp, runs), 2 * w, lo)
    ensures |MergePass(items, cmp, runs)| == (|runs| + 1) / 2
    ensures |Flatten(MergePass(items, cmp, runs))| == |Flatten(runs)|
  {
    var out := MergePass(items, cmp, runs);
    if |runs| == 0 {
    } else if |runs| == 1 {
      MergeElements(items, cmp, runs[0], []);
      assert out == [runs[0]] && out[1..] == [] && runs[1..] == [];
    } else {
      assert runs[1..][1..] == runs[2..] && runs[1..][0] == runs[1];
      var m := Merge(items, cmp, runs[0], runs[1]);
      MergeRuns(items, cmp, runs[0], runs[1], lo);
      MergePassGood(items, cmp, runs[2..], w, lo + |m|);
      assert out[0] == m && out[1..] == MergePass(items, cmp, runs[2..]);
      assert |runs| > 2 ==> |runs[1]| == w;
    }
  }

  /** The runs that a sort starts from: one element each, in the original order. */
  ghost function Singletons(lo: nat, n: nat): seq<seq<nat>>
    decreases n - lo
  {
    if lo >= n then [] else [[lo]] + Singletons(lo + 1, n)
  }

  lemma {:induction false} SingletonsGood<V>(items: seq<V>, cmp: (V, V) -> int, lo: nat)
    requires lo <= |items|
    ensures GoodRuns(items, cmp, Singletons(lo, |items|), 1, lo)
    ensures |Singletons(lo, |items|)| == |items| - lo
    ensures Flatten(Singletons(lo, |items|)) == seq(|items| - lo, k requires 0 <= k => lo + k)
    decreases |items| - lo
  {
    if lo < |items| {
      SingletonsGood(items, cmp, lo + 1);
      var rest := Singletons(lo + 1, |items|);
      assert Singletons(lo, |items|)[1..] == rest;
    }
  }

  /** When one run is left it is the stable sort of the whole list. */
  lemma LastRunIsSort<V(!new)>(items: seq<V>, cmp: (V, V) -> int, runs: seq<seq<nat>>, w: nat)
    requires TotalPreorder(cmp)
    requires |runs| == 1 && GoodRuns(items, cmp, runs, w, 0)
    requires |Flatten(runs)| == |items|
    ensures IsStableSort(items, cmp, Flatten(runs))
  {
    assert runs[1..] == [];
    assert Flatten(runs) == runs[0];
    var p := runs[0];
    forall a, b | 0 <= a < b < |p| ensures p[a] != p[b] {
      assert Before(items, cmp, p[a], p[b]);
    }
  }
}
