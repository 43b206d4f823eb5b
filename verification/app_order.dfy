/**
  Hash table elements and their application-order list, with the in-place merge sort that
  HASH_SRT runs on that list (libharvid/uthash.h).
  */
module AppOrder {
  import opened Sequences
  import opened StableOrder

  type Key = string

  /** What the user keeps in an element; only a comparison function ever looks at it. */
  type Item(!new)

  /** An element with its embedded hash handle. */
  class Elem {
    const key: Key
    const item: Item
    var hashv: nat
    var prev: Elem?
    var next: Elem?
    var hhPrev: Elem?
    var hhNext: Elem?

    constructor (key: Key, item: Item)
      ensures this.key == key && this.item == item
    {
      this.key, this.item := key, item;
      hashv := 0;
      prev, next, hhPrev, hhNext := null, null, null, null;
    }
  }

  ghost function At(s: seq<Elem>, i: int): Elem?
  {
    if 0 <= i < |s| then s[i] else null
  }

  ghost predicate Distinct(s: seq<Elem>)
  {
    forall i, j :: 0 <= i < j < |s| ==> s[i] != s[j]
  }

  ghost predicate AppLinks(s: seq<Elem>)
    reads s`prev, s`next
  {
    && (forall i {:trigger s[i].prev} :: 0 <= i < |s| ==> s[i].prev == At(s, i - 1))
    && (forall i {:trigger s[i].next} :: 0 <= i < |s| ==> s[i].next == At(s, i + 1))
  }

  // ---------------------------------------------------------------------------------
  // Sorting.  `nodes` is the list in its original order; every later order of the list is
  // a sequence of positions in `nodes`.

  ghost function Items(nodes: seq<Elem>): (r: seq<Item>)
    ensures |r| == |nodes|
  {
    seq(|nodes|, i requires 0 <= i < |nodes| => nodes[i].item)
  }

  ghost predicate Differ<T>(s: seq<T>, i: nat, j: nat)
  {
    i < |s| && j < |s| && i != j ==> s[i] != s[j]
  }

  /** All elements differ; named so that the solver compares two of them only where they are named. */
  ghost predicate Separate<T>(s: seq<T>)
  {
    forall i, j {:trigger Differ(s, i, j)} :: Differ(s, i, j)
  }

  /** Distinct positions in `nodes`. */
  ghost predicate Positions(nodes: seq<Elem>, p: seq<nat>)
  {
    (forall k :: 0 <= k < |p| ==> p[k] < |nodes|) && Separate(p)
  }

  /** The list `nodes` rearranged by `p`. */
  ghost function Permuted(nodes: seq<Elem>, p: seq<nat>): (r: seq<Elem>)
    requires Positions(nodes, p)
    ensures |r| == |p|
  {
    seq(|p|, k requires 0 <= k < |p| => nodes[p[k]])
  }

  lemma AppendSeparate<T>(s: seq<T>, x: T)
    requires Separate(s) && x !in s
    ensures Separate(s + [x])
  {
    forall i: nat, j: nat ensures Differ(s + [x], i, j) {
      assert Differ(s, i, j);
    }
  }

  ghost function Node(nodes: seq<Elem>, p: seq<nat>, k: int): Elem?
  {
    if 0 <= k < |p| && p[k] < |nodes| then nodes[p[k]] else null
  }

  /** Walking `next` from position `lo` up to (not including) `hi` follows the order `p`. */
  ghost predicate NextFrom(nodes: seq<Elem>, p: seq<nat>, lo: nat, hi: nat)
    requires Positions(nodes, p)
    reads nodes`next
  {
    forall k {:trigger nodes[p[k]].next} :: lo <= k < hi && k < |p| ==> nodes[p[k]].next == Node(nodes, p, k + 1)
  }

  /** A list under construction: complete except for the `next` of its last node. */
  ghost predicate Building(nodes: seq<Elem>, out: seq<nat>, list: Elem?, tail: Elem?)
    requires Positions(nodes, out)
    reads nodes`prev, nodes`next
  {
    && list == Node(nodes, out, 0) && tail == Node(nodes, out, |out| - 1)
    && (forall k {:trigger nodes[out[k]].prev} :: 0 <= k < |out| ==> nodes[out[k]].prev == Node(nodes, out, k - 1))
    && (forall k {:trigger nodes[out[k]].next} :: 0 <= k < |out| - 1 ==> nodes[out[k]].next == Node(nodes, out, k + 1))
  }

  /** Positions lo .. hi of `p` are not in `out`. */
  ghost predicate Apart(p: seq<nat>, out: seq<nat>, lo: nat, hi: nat)
  {
    forall k {:trigger Missing(p, k, out)} :: lo <= k < hi ==> Missing(p, k, out)
  }

  ghost predicate Missing(p: seq<nat>, k: nat, out: seq<nat>)
  {
    k < |p| ==> p[k] !in out
  }

  lemma StillApart(p: seq<nat>, out: seq<nat>, k: nat, lo: nat, hi: nat)
    requires Separate(p) && k < |p| && !(lo <= k < hi) && Apart(p, out, lo, hi)
    ensures Apart(p, out + [p[k]], lo, hi)
  {
    forall j: nat | lo <= j < hi ensures Missing(p, j, out + [p[k]]) {
      assert Missing(p, j, out) && Differ(p, j, k);
    }
  }

  /** What is not in the list under construction is not its last node. */
  lemma NotTheTail(nodes: seq<Elem>, p: seq<nat>, out: seq<nat>, lo: nat, hi: nat, tail: Elem?)
    requires Separate(nodes) && Positions(nodes, p) && Positions(nodes, out) && Apart(p, out, lo, hi) && tail == Node(nodes, out, |out| - 1)
    ensures forall k {:trigger p[k]} :: lo <= k < hi && k < |p| ==> nodes[p[k]] != tail
  {
    if tail != null {
      forall k {:trigger p[k]} | lo <= k < hi && k < |p| ensures nodes[p[k]] != tail {
        assert Missing(p, k, out) && Differ(nodes, p[k], out[|out| - 1]);
      }
    }
  }

  /** Append `e` to the list under construction. */
  method Emit(e: Elem, list: Elem?, tail: Elem?, ghost nodes: seq<Elem>, ghost out: seq<nat>, ghost x: nat)
    returns (list': Elem?, tail': Elem?)
    requires Separate(nodes) && Positions(nodes, out) && x < |nodes| && x !in out
    requires Building(nodes, out, list, tail) && e == nodes[x]
    modifies e`prev, (if tail == null then {} else {tail})`next
    ensures Positions(nodes, out + [x]) && Building(nodes, out + [x], list', tail')
  {
    list' := list;
    if tail != null {
      tail.next := e;
    } else {
      list' := e;
    }
    e.prev := tail;
    tail' := e;
    ghost var o := out + [x];
    AppendSeparate(out, x);
    forall k | 0 <= k < |out| ensures nodes[out[k]] != e {
      assert Differ(nodes, out[k], x);
    }
    forall k | 0 <= k < |o| ensures nodes[o[k]].prev == Node(nodes, o, k - 1) {
      if k < |out| {
        assert old(nodes[out[k]].prev) == Node(nodes, out, k - 1);
      } else {
        assert e.prev == Node(nodes, out, |out| - 1) == Node(nodes, o, k - 1);
      }
    }
    forall k | 0 <= k < |o| - 1 ensures nodes[o[k]].next == Node(nodes, o, k + 1) {
      if k < |out| - 1 {
        assert old(nodes[out[k]].next) == Node(nodes, out, k + 1);
        assert Differ(out, k, |out| - 1) && Differ(nodes, out[k], out[|out| - 1]);
      } else {
        assert nodes[o[k]] == tail && Node(nodes, o, k + 1) == e;
      }
    }
  }

  /** Walk over the first run: at most `insize` nodes, fewer if the list ends. */
  method TakeRun(p: Elem, insize: nat, ghost nodes: seq<Elem>, ghost flat: seq<nat>, ghost c: nat)
    returns (q: Elem?, psize: nat)
    requires Positions(nodes, flat) && c < |flat| && p == nodes[flat[c]]
    requires NextFrom(nodes, flat, c, |flat|) && insize > 0
    ensures psize == if |flat| - c < insize then |flat| - c else insize
    ensures q == Node(nodes, flat, c + psize)
  {
    q, psize := p, 0;
    var i := 0;
    while i < insize
      invariant 0 <= i <= insize && psize == i && c + i < |flat|
      invariant q == nodes[flat[c + i]]
    {
      psize := psize + 1;
      q := q.next;
      if q == null { break; }
      i := i + 1;
    }
  }

  /** What is still to be merged when the first run is at `pi` and the second at `qi`. */
  ghost function ToMerge(items: seq<Item>, cmp: (Item, Item) -> int, flat: seq<nat>, pi: nat, mid: nat, qi: nat, qend: nat): seq<nat>
    requires pi <= mid <= qi <= qend <= |flat|
  {
    Merge(items, cmp, flat[pi..mid], flat[qi..qend])
  }

  lemma MergeTakesFirst(items: seq<Item>, cmp: (Item, Item) -> int, flat: seq<nat>, pi: nat, mid: nat, qi: nat, qend: nat, out: seq<nat>)
    requires pi < mid <= qi <= qend <= |flat| && forall k :: 0 <= k < |flat| ==> flat[k] < |items|
    requires qi == qend || cmp(items[flat[pi]], items[flat[qi]]) <= 0
    ensures out + ToMerge(items, cmp, flat, pi, mid, qi, qend) == (out + [flat[pi]]) + ToMerge(items, cmp, flat, pi + 1, mid, qi, qend)
  {
    var a, b := flat[pi..mid], flat[qi..qend];
    assert a == [flat[pi]] + a[1..] && a[1..] == flat[pi + 1..mid];
    if qi == qend { assert b == []; }
    assert ToMerge(items, cmp, flat, pi, mid, qi, qend) == [flat[pi]] + ToMerge(items, cmp, flat, pi + 1, mid, qi, qend);
    AppendHead(out, flat[pi], ToMerge(items, cmp, flat, pi + 1, mid, qi, qend));
  }

  lemma MergeTakesSecond(items: seq<Item>, cmp: (Item, Item) -> int, flat: seq<nat>, pi: nat, mid: nat, qi: nat, qend: nat, out: seq<nat>)
    requires pi <= mid <= qi < qend <= |flat| && forall k :: 0 <= k < |flat| ==> flat[k] < |items|
    requires pi == mid || cmp(items[flat[pi]], items[flat[qi]]) > 0
    ensures out + ToMerge(items, cmp, flat, pi, mid, qi, qend) == (out + [flat[qi]]) + ToMerge(items, cmp, flat, pi, mid, qi + 1, qend)
  {
    var a, b := flat[pi..mid], flat[qi..qend];
    assert b == [flat[qi]] + b[1..] && b[1..] == flat[qi + 1..qend];
    if pi == mid { assert a == []; }
    assert ToMerge(items, cmp, flat, pi, mid, qi, qend) == [flat[qi]] + ToMerge(items, cmp, flat, pi, mid, qi + 1, qend);
    AppendHead(out, flat[qi], ToMerge(items, cmp, flat, pi, mid, qi + 1, qend));
  }

  /**
    The state inside a merge: positions pi .. mid and qi .. of `flat` are still linked as in
    the old list, and everything before them is in the new list `out`.
    */
  ghost predicate Merging(nodes: seq<Elem>, flat: seq<nat>, pi: nat, mid: nat, qi: nat,
                          out: seq<nat>, list: Elem?, tail: Elem?)
    reads nodes`prev, nodes`next
  {
    && pi <= mid <= qi <= |flat|
    && Separate(nodes) && Positions(nodes, flat) && Positions(nodes, out)
    && Building(nodes, out, list, tail)
    && NextFrom(nodes, flat, pi, mid) && NextFrom(nodes, flat, qi, |flat|)
    && Apart(flat, out, pi, mid) && Apart(flat, out, qi, |flat|)
  }

  /** Move the node at position k (which is pi or qi) to the end of the new list. */
  method Take(e: Elem, list: Elem?, tail: Elem?, ghost nodes: seq<Elem>, ghost flat: seq<nat>,
              ghost pi: nat, ghost mid: nat, ghost qi: nat, ghost first: bool, ghost out: seq<nat>)
    returns (rest: Elem?, list': Elem?, tail': Elem?)
    requires Merging(nodes, flat, pi, mid, qi, out, list, tail)
    requires if first then pi < mid && e == nodes[flat[pi]] else qi < |flat| && e == nodes[flat[qi]]
    modifies nodes`prev, nodes`next
    ensures first ==> rest == Node(nodes, flat, pi + 1)
    ensures first ==> Merging(nodes, flat, pi + 1, mid, qi, out + [flat[pi]], list', tail')
    ensures !first ==> rest == Node(nodes, flat, qi + 1)
    ensures !first ==> Merging(nodes, flat, pi, mid, qi + 1, out + [flat[qi]], list', tail')
  {
    ghost var k := if first then pi else qi;
    ghost var pi', qi' := if first then pi + 1 else pi, if first then qi else qi + 1;
    rest := e.next;
    assert Missing(flat, k, out);
    NotTheTail(nodes, flat, out, pi, mid, tail);
    NotTheTail(nodes, flat, out, qi, |flat|, tail);
    StillApart(flat, out, k, pi', mid);
    StillApart(flat, out, k, qi', |flat|);
    list', tail' := Emit(e, list, tail, nodes, out, flat[k]);
  }

  /**
    Merge the runs at positions c .. mid and mid .. qend of `flat` and append the result to
    the list under construction.  The smaller head goes first, and the head of the first
    run on a tie.
    */
  method MergeTwo(p0: Elem, q0: Elem?, psize0: nat, insize: nat, list0: Elem?, tail0: Elem?, cmp: (Item, Item) -> int,
                  ghost nodes: seq<Elem>, ghost flat: seq<nat>, ghost c: nat, ghost mid: nat, ghost qend: nat,
                  ghost out0: seq<nat>)
    returns (q: Elem?, list: Elem?, tail: Elem?, ghost out: seq<nat>)
    requires c < mid <= qend && psize0 == mid - c
    requires Merging(nodes, flat, c, mid, mid, out0, list0, tail0)
    requires qend == if |flat| - mid < insize then |flat| else mid + insize
    requires p0 == nodes[flat[c]] && q0 == Node(nodes, flat, mid)
    modifies nodes`prev, nodes`next
    ensures out == out0 + ToMerge(Items(nodes), cmp, flat, c, mid, mid, qend)
    ensures q == Node(nodes, flat, qend)
    ensures Merging(nodes, flat, qend, qend, qend, out, list, tail)
  {
    ghost var items := Items(nodes);
    ghost var pi, qi := c, mid;
    ghost var target := out0 + ToMerge(items, cmp, flat, c, mid, mid, qend);
    var p: Elem?, psize, qsize := p0, psize0, insize;
    q, list, tail, out := q0, list0, tail0, out0;
    while psize > 0 || (qsize > 0 && q != null)
      invariant c <= pi <= mid <= qi <= qend
      invariant psize == mid - pi && qsize == insize - (qi - mid)
      invariant Merging(nodes, flat, pi, mid, qi, out, list, tail)
      invariant p == Node(nodes, flat, pi) || psize == 0
      invariant q == Node(nodes, flat, qi)
      invariant out + ToMerge(items, cmp, flat, pi, mid, qi, qend) == target
      decreases psize + (qend - qi)
    {
      if psize == 0 || (qsize > 0 && q != null && cmp(p.item, q.item) > 0) {
        MergeTakesSecond(items, cmp, flat, pi, mid, qi, qend, out);
        q, list, tail := Take(q, list, tail, nodes, flat, pi, mid, qi, false, out);
        out, qsize, qi := out + [flat[qi]], qsize - 1, qi + 1;
      } else {
        MergeTakesFirst(items, cmp, flat, pi, mid, qi, qend, out);
        p, list, tail := Take(p, list, tail, nodes, flat, pi, mid, qi, true, out);
        out, psize, pi := out + [flat[pi]], psize - 1, pi + 1;
      }
    }
    MergingDone(nodes, cmp, flat, mid, qend, out, list, tail);
  }

  lemma MergingDone(nodes: seq<Elem>, cmp: (Item, Item) -> int, flat: seq<nat>, mid: nat, qend: nat, out: seq<nat>, list: Elem?, tail: Elem?)
    requires qend <= |flat| && Merging(nodes, flat, mid, mid, qend, out, list, tail)
    ensures Merging(nodes, flat, qend, qend, qend, out, list, tail)
    ensures out + ToMerge(Items(nodes), cmp, flat, mid, mid, qend, qend) == out
  {
    assert ToMerge(Items(nodes), cmp, flat, mid, mid, qend, qend) == [];
  }

  lemma AppendHead(out: seq<nat>, x: nat, rest: seq<nat>)
    ensures out + ([x] + rest) == (out + [x]) + rest
  {
  }

  /** The list in the order `p` is completely linked. */
  ghost predicate Linked(nodes: seq<Elem>, p: seq<nat>)
    requires Positions(nodes, p)
    reads nodes`prev, nodes`next
  {
    && NextFrom(nodes, p, 0, |p|)
    && (forall k {:trigger nodes[p[k]].prev} :: 0 <= k < |p| ==> nodes[p[k]].prev == Node(nodes, p, k - 1))
  }

  /** From position c on, `flat` consists of the runs `rest`. */
  ghost predicate RunsFrom(items: seq<Item>, cmp: (Item, Item) -> int, flat: seq<nat>, c: nat, rest: seq<seq<nat>>, insize: nat)
  {
    c <= |flat| && flat[c..] == Flatten(rest) && GoodRuns(items, cmp, rest, insize, c)
  }

  /** Where the first two runs lie, what is left after them, and what a pass makes of them. */
  lemma NextPair(items: seq<Item>, cmp: (Item, Item) -> int, flat: seq<nat>, c: nat, rest: seq<seq<nat>>, insize: nat, mid: nat, qend: nat)
    returns (rest': seq<seq<nat>>)
    requires c < |flat| && RunsFrom(items, cmp, flat, c, rest, insize)
    requires mid == RunEnd(flat, c, insize) && qend == RunEnd(flat, mid, insize)
    ensures RunsFrom(items, cmp, flat, qend, rest', insize)
    ensures Flatten(MergePass(items, cmp, rest)) ==
      ToMerge(items, cmp, flat, c, mid, mid, qend) + Flatten(MergePass(items, cmp, rest'))
    ensures |MergePass(items, cmp, rest)| == 1 + |MergePass(items, cmp, rest')|
  {
    assert |flat[c..]| > 0;
    var tl := rest[1..];
    rest' := if |rest| == 1 then [] else rest[2..];
    assert flat[c..] == rest[0] + Flatten(tl);
    if |rest| == 1 {
      assert tl == [];
      assert |flat[c..]| == |rest[0]|;
      assert flat[c..mid] == flat[c..] == rest[0] && flat[mid..qend] == [] == flat[qend..];
      var m := MergePass(items, cmp, rest);
      assert m[1..] == [];
    } else {
      assert tl[0] == rest[1] && tl[1..] == rest[2..];
      assert GoodRuns(items, cmp, tl, insize, c + insize);
      assert |flat[c..]| == insize + |Flatten(tl)|;
      assert flat[c..mid] == flat[c..][..insize] == rest[0];
      assert flat[mid..] == flat[c..][insize..] == rest[1] + Flatten(rest');
      assert |flat[mid..]| == |rest[1]| + |Flatten(rest')|;
      if |rest| == 2 { assert rest' == []; }
      assert qend == mid + |rest[1]|;
      assert flat[mid..qend] == flat[mid..][..|rest[1]|] == rest[1];
      assert flat[qend..] == flat[mid..][|rest[1]|..] == Flatten(rest');
      var m := MergePass(items, cmp, rest);
      assert m[1..] == MergePass(items, cmp, rest');
    }
  }

  /** Where a run of width `insize` ends that starts at position c. */
  ghost function RunEnd(flat: seq<nat>, c: nat, insize: nat): (r: nat)
    requires c <= |flat|
    ensures c <= r <= |flat|
  {
    if |flat| - c < insize then |flat| else c + insize
  }

  /** Step over the first run, which finds the second one, and merge them. */
  method MergePair(p: Elem, insize: nat, list0: Elem?, tail0: Elem?, cmp: (Item, Item) -> int,
                   ghost nodes: seq<Elem>, ghost flat: seq<nat>, ghost c: nat, ghost mid: nat, ghost qend: nat, ghost out0: seq<nat>)
    returns (q: Elem?, list: Elem?, tail: Elem?, ghost out: seq<nat>)
    requires insize > 0 && Merging(nodes, flat, c, c, c, out0, list0, tail0) && c < |flat| && p == nodes[flat[c]]
    requires mid == RunEnd(flat, c, insize) && qend == RunEnd(flat, mid, insize)
    modifies nodes`prev, nodes`next
    ensures out == out0 + ToMerge(Items(nodes), cmp, flat, c, mid, mid, qend)
    ensures q == Node(nodes, flat, qend)
    ensures Merging(nodes, flat, qend, qend, qend, out, list, tail)
  {
    var psize;
    q, psize := TakeRun(p, insize, nodes, flat, c);
    q, list, tail, out := MergeTwo(p, q, psize, insize, list0, tail0, cmp, nodes, flat, c, mid, qend, out0);
  }

  /** One pass: merge the runs of width `insize` two by two. */
  method Pass(head: Elem?, insize: nat, cmp: (Item, Item) -> int, ghost nodes: seq<Elem>, ghost flat: seq<nat>, ghost runs: seq<seq<nat>>)
    returns (list: Elem?, tail: Elem?, nmerges: nat, ghost out: seq<nat>)
    requires insize > 0 && Separate(nodes) && Positions(nodes, flat) && Linked(nodes, flat) && head == Node(nodes, flat, 0)
    requires RunsFrom(Items(nodes), cmp, flat, 0, runs, insize)
    modifies nodes`prev, nodes`next
    ensures out == Flatten(MergePass(Items(nodes), cmp, runs)) && Positions(nodes, out)
    ensures Building(nodes, out, list, tail)
    ensures nmerges == |MergePass(Items(nodes), cmp, runs)|
  {
    ghost var items := Items(nodes);
    ghost var c, rest := 0, runs;
    var p: Elem? := head;
    list, tail, nmerges, out := null, null, 0, [];
    while p != null
      invariant p == Node(nodes, flat, c)
      invariant Merging(nodes, flat, c, c, c, out, list, tail)
      invariant Passing(items, cmp, flat, c, rest, insize, out, nmerges, runs)
      decreases |flat| - c
    {
      nmerges := nmerges + 1;
      ghost var mid, qend := RunEnd(flat, c, insize), RunEnd(flat, RunEnd(flat, c, insize), insize);
      rest := PassStep(items, cmp, flat, c, rest, insize, mid, qend, out, nmerges - 1, runs);
      p, list, tail, out := MergePair(p, insize, list, tail, cmp, nodes, flat, c, mid, qend, out);
      c := qend;
    }
    NothingLeft(items, cmp, flat, c, rest, insize);
  }

  /** How far a pass over `runs` has come: to position c, where the runs `rest` start. */
  ghost predicate Passing(items: seq<Item>, cmp: (Item, Item) -> int, flat: seq<nat>, c: nat, rest: seq<seq<nat>>, insize: nat,
                          out: seq<nat>, nmerges: nat, runs: seq<seq<nat>>)
  {
    && RunsFrom(items, cmp, flat, c, rest, insize)
    && out + Flatten(MergePass(items, cmp, rest)) == Flatten(MergePass(items, cmp, runs))
    && nmerges + |MergePass(items, cmp, rest)| == |MergePass(items, cmp, runs)|
  }

  lemma PassStep(items: seq<Item>, cmp: (Item, Item) -> int, flat: seq<nat>, c: nat, rest: seq<seq<nat>>, insize: nat, mid: nat, qend: nat,
                 out: seq<nat>, nmerges: nat, runs: seq<seq<nat>>) returns (rest': seq<seq<nat>>)
    requires c < |flat| && Passing(items, cmp, flat, c, rest, insize, out, nmerges, runs)
    requires mid == RunEnd(flat, c, insize) && qend == RunEnd(flat, mid, insize)
    ensures Passing(items, cmp, flat, qend, rest', insize, out + ToMerge(items, cmp, flat, c, mid, mid, qend), nmerges + 1, runs)
  {
    rest' := NextPair(items, cmp, flat, c, rest, insize, mid, qend);
    Reassociate(out, ToMerge(items, cmp, flat, c, mid, mid, qend), Flatten(MergePass(items, cmp, rest')));
  }

  lemma NothingLeft(items: seq<Item>, cmp: (Item, Item) -> int, flat: seq<nat>, c: nat, rest: seq<seq<nat>>, insize: nat)
    requires RunsFrom(items, cmp, flat, c, rest, insize) && c == |flat|
    ensures rest == [] && MergePass(items, cmp, rest) == [] && Flatten([]) == []
  {
    assert |flat[c..]| == 0;
  }

  /** HASH_SRT: bottom-up merge sort of a non-empty list, in place. */
  method SortList(head: Elem, cmp: (Item, Item) -> int, ghost nodes: seq<Elem>)
    returns (list: Elem?, tail: Elem?, ghost perm: seq<nat>)
    requires TotalPreorder(cmp)
    requires nodes != [] && head == nodes[0] && Distinct(nodes) && AppLinks(nodes)
    modifies nodes`prev, nodes`next
    ensures IsStableSort(Items(nodes), cmp, perm) && Positions(nodes, perm)
    ensures AppLinks(Permuted(nodes, perm))
    ensures list == Node(nodes, perm, 0) && tail == Node(nodes, perm, |perm| - 1)
  {
    ghost var items := Items(nodes);
    ghost var runs := StartRuns(nodes, cmp);
    assert forall i: nat, j: nat :: Differ(nodes, i, j);
    var insize, looping := 1, true;
    list, tail, perm := head, null, Flatten(runs);
    while looping
      invariant insize > 0 && |perm| == |nodes|
      invariant Positions(nodes, perm) && Linked(nodes, perm) && list == Node(nodes, perm, 0)
      invariant looping ==> runs != [] && RunsFrom(items, cmp, perm, 0, runs, insize)
      invariant !looping ==> IsStableSort(items, cmp, perm) && tail == Node(nodes, perm, |perm| - 1)
      decreases looping, |runs|
    {
      var nmerges;
      list, tail, nmerges, perm, runs := WholePass(list, insize, cmp, nodes, perm, runs);
      if nmerges <= 1 {
        looping := false;
      }
      insize := insize * 2;
    }
    LinkedInOrder(nodes, perm);
  }

  lemma LinkedInOrder(nodes: seq<Elem>, perm: seq<nat>)
    requires Positions(nodes, perm) && Linked(nodes, perm)
    ensures AppLinks(Permuted(nodes, perm))
  {
    assert forall k :: 0 <= k < |perm| ==> Permuted(nodes, perm)[k] == nodes[perm[k]];
  }

  /** A pass, and the end of the new list. */
  method WholePass(head: Elem?, insize: nat, cmp: (Item, Item) -> int, ghost nodes: seq<Elem>, ghost flat: seq<nat>, ghost runs: seq<seq<nat>>)
    returns (list: Elem?, tail: Elem?, nmerges: nat, ghost out: seq<nat>, ghost runs': seq<seq<nat>>)
    requires TotalPreorder(cmp) && runs != [] && |flat| == |nodes|
    requires insize > 0 && Separate(nodes) && Positions(nodes, flat) && Linked(nodes, flat) && head == Node(nodes, flat, 0)
    requires RunsFrom(Items(nodes), cmp, flat, 0, runs, insize)
    modifies nodes`prev, nodes`next
    ensures RunsFrom(Items(nodes), cmp, out, 0, runs', 2 * insize)
    ensures |out| == |nodes| && Positions(nodes, out) && Linked(nodes, out)
    ensures list == Node(nodes, out, 0) && tail == Node(nodes, out, |out| - 1)
    ensures nmerges == |runs'| == (|runs| + 1) / 2 && (nmerges == 1 ==> IsStableSort(Items(nodes), cmp, out))
  {
    runs' := PassResult(nodes, cmp, flat, runs, insize);
    list, tail, nmerges, out := Pass(head, insize, cmp, nodes, flat, runs);
    Terminate(list, tail, nodes, out);
  }

  method Terminate(list: Elem?, tail: Elem?, ghost nodes: seq<Elem>, ghost out: seq<nat>)
    requires Separate(nodes) && Positions(nodes, out) && Building(nodes, out, list, tail)
    modifies (if tail == null then {} else {tail})`next
    ensures Linked(nodes, out) && list == Node(nodes, out, 0) && tail == Node(nodes, out, |out| - 1)
  {
    if tail != null {
      tail.next := null;
    }
    forall k | 0 <= k < |out|
      ensures nodes[out[k]].next == Node(nodes, out, k + 1) && nodes[out[k]].prev == Node(nodes, out, k - 1)
    {
      assert old(nodes[out[k]].prev) == Node(nodes, out, k - 1);
      if k < |out| - 1 {
        assert old(nodes[out[k]].next) == Node(nodes, out, k + 1);
        assert Differ(out, k, |out| - 1) && Differ(nodes, out[k], out[|out| - 1]);
      }
    }
  }

  lemma StartRuns(nodes: seq<Elem>, cmp: (Item, Item) -> int) returns (runs: seq<seq<nat>>)
    requires nodes != [] && AppLinks(nodes) && Distinct(nodes)
    ensures runs != [] && RunsFrom(Items(nodes), cmp, Flatten(runs), 0, runs, 1)
    ensures |Flatten(runs)| == |nodes| && Positions(nodes, Flatten(runs)) && Linked(nodes, Flatten(runs))
    ensures Flatten(runs)[0] == 0
  {
    runs := Singletons(0, |nodes|);
    SingletonsGood(Items(nodes), cmp, 0);
    var p := Flatten(runs);
    assert p[0..] == p;
    assert forall k :: 0 <= k < |p| ==> p[k] == k;
    assert Separate(p);
    forall k | 0 <= k < |p|
      ensures nodes[p[k]].next == Node(nodes, p, k + 1) && nodes[p[k]].prev == Node(nodes, p, k - 1)
    {
      assert nodes[k].next == At(nodes, k + 1) && nodes[k].prev == At(nodes, k - 1);
    }
  }

  lemma PassResult(nodes: seq<Elem>, cmp: (Item, Item) -> int, perm: seq<nat>, runs: seq<seq<nat>>, insize: nat)
    returns (runs': seq<seq<nat>>)
    requires TotalPreorder(cmp) && runs != [] && RunsFrom(Items(nodes), cmp, perm, 0, runs, insize)
    ensures runs' == MergePass(Items(nodes), cmp, runs) && |runs'| == (|runs| + 1) / 2
    ensures RunsFrom(Items(nodes), cmp, Flatten(runs'), 0, runs', 2 * insize)
    ensures |Flatten(runs')| == |perm|
    ensures runs' != [] && (|runs'| <= 1 && |perm| == |nodes| ==> IsStableSort(Items(nodes), cmp, Flatten(runs')))
  {
    runs' := MergePass(Items(nodes), cmp, runs);
    MergePassGood(Items(nodes), cmp, runs, insize, 0);
    assert perm[0..] == perm && Flatten(runs')[0..] == Flatten(runs');
    if |runs'| == 1 && |perm| == |nodes| {
      LastRunIsSort(Items(nodes), cmp, runs', 2 * insize);
    }
  }
}
