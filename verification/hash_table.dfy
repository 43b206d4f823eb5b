/**
  The intrusive hash table behind every cache and index of libharvid (libharvid/uthash.h).

  An element sits on two doubly linked lists at once: the application-order list
  (prev/next, in app_order.dfy) and the chain of its bucket (hhPrev/hhNext).  The table keeps per-bucket
  counts, a tail pointer and a bucket count that doubles.  `Valid` is the invariant that
  the source spells out as the executable checker HASH_FSCK.

  The hash handle and the element that embeds it are one object here, so the handle offset
  arithmetic of the source disappears.  The hash is any fixed function of the key.
  */
module UtHash {
  import opened StableOrder
  import opened Division
  import opened AppOrder

  const INITIAL_NUM_BUCKETS: nat := 32
  const INITIAL_NUM_BUCKETS_LOG2: nat := 5
  const BKT_CAPACITY_THRESH: nat := 10

  // ---------------------------------------------------------------------------------
  // Bucket arithmetic

  function Pow2(k: nat): (r: nat)
    ensures r > 0
  {
    if k == 0 then 1 else 2 * Pow2(k - 1)
  }

  /** Bitwise conjunction of two unsigned numbers. */
  function BitAnd(a: nat, b: nat): (r: nat)
    ensures r <= a && r <= b
    decreases a
  {
    if a == 0 || b == 0 then 0
    else 2 * BitAnd(a / 2, b / 2) + if a % 2 == 1 && b % 2 == 1 then 1 else 0
  }

  /** HASH_TO_BKT masks with n - 1; for a power of two that is the remainder. */
  lemma {:induction false} MaskIsRemainder(h: nat, k: nat)
    ensures BitAnd(h, Pow2(k) - 1) == h % Pow2(k)
    decreases k
  {
    if k == 0 {
    } else if h == 0 {
      RemainderIs(0, Pow2(k), 0, 0);
    } else {
      var n := Pow2(k - 1);
      MaskIsRemainder(h / 2, k - 1);
      assert (2 * n - 1) / 2 == n - 1 && (2 * n - 1) % 2 == 1;
      DoubledRemainder(h, n);
    }
  }

  lemma DoubledRemainder(h: nat, n: nat)
    requires n > 0
    ensures h % (2 * n) == 2 * ((h / 2) % n) + h % 2
  {
    var q, r := (h / 2) / n, (h / 2) % n;
    assert h / 2 == n * q + r;
    RemainderIs(h, 2 * n, q, 2 * r + h % 2);
  }

  lemma RemainderIs(h: nat, m: nat, q: nat, r: nat)
    requires m > 0 && r < m && h == m * q + r
    ensures h % m == r && h / m == q
  {
    var q', r' := h / m, h % m;
    assert m * (q - q') == r' - r;
    if q > q' {
      MulMono(m, q - q');
    } else if q < q' {
      MulMono(m, q' - q);
    }
  }

  lemma MulMono(m: nat, k: nat)
    requires k >= 1
    ensures m * k >= m
  {
  }

  /** Doubling the bucket count n sends the items of old bucket i to i and i + n only. */
  lemma SplitTargets(h: nat, k: nat)
    ensures var n := Pow2(k); var b := BitAnd(h, 2 * n - 1);
      BitAnd(h, n - 1) == (if b < n then b else b - n) < n
  {
    var n := Pow2(k);
    assert Pow2(k + 1) == 2 * n;
    MaskIsRemainder(h, k);
    MaskIsRemainder(h, k + 1);
    DoubledModulus(h, n);
  }

  lemma DoubledModulus(h: nat, n: nat)
    requires n > 0
    ensures h % (2 * n) == h % n || h % (2 * n) == h % n + n
  {
    var q, r := h / n, h % n;
    assert h == n * q + r;
    EvenOrOddQuotient(h, n, q, r, q / 2);
  }

  lemma EvenOrOddQuotient(h: nat, n: nat, q: nat, r: nat, p: nat)
    requires r < n && h == n * q + r && (q == 2 * p || q == 2 * p + 1)
    ensures h % (2 * n) == r || h % (2 * n) == r + n
  {
    Regroup(n, p);
    if q == 2 * p {
      RemainderIs(h, 2 * n, p, r);
    } else {
      RemainderIs(h, 2 * n, p, n + r);
    }
  }

  lemma Regroup(n: nat, p: nat)
    ensures n * (2 * p) == (2 * n) * p
    ensures n * (2 * p + 1) == (2 * n) * p + n
  {
  }

  // ---------------------------------------------------------------------------------
  // Elements, buckets, lists

  datatype Bucket = Bucket(hhHead: Elem?, count: nat, expandMult: nat)

  /** Membership, unfolded one element at a time. */
  ghost predicate Occurs(s: seq<Elem>, e: Elem)
  {
    s != [] && (s[0] == e || Occurs(s[1..], e))
  }

  lemma {:induction false} OccursIsMembership(s: seq<Elem>, e: Elem)
    ensures Occurs(s, e) <==> e in s
  {
    if s != [] {
      OccursIsMembership(s[1..], e);
      assert s == [s[0]] + s[1..];
    }
  }

  ghost predicate Chain(s: seq<Elem>, bkt: Bucket)
    reads s`hhPrev, s`hhNext
  {
    && bkt.hhHead == At(s, 0)
    && bkt.count == |s|
    && (forall j {:trigger s[j].hhPrev} :: 0 <= j < |s| ==> s[j].hhPrev == At(s, j - 1))
    && (forall j {:trigger s[j].hhNext} :: 0 <= j < |s| ==> s[j].hhNext == At(s, j + 1))
  }

  /** Total over all chains of what exceeds `cut`; with cut 0, the number of chained items. */
  ghost function Excess(chains: seq<seq<Elem>>, cut: nat): nat
  {
    if chains == [] then 0
    else (if |chains[0]| > cut then |chains[0]| - cut else 0) + Excess(chains[1..], cut)
  }

  lemma {:induction false} ExcessUpdate(chains: seq<seq<Elem>>, cut: nat, b: nat, c: seq<Elem>)
    requires b < |chains|
    ensures Excess(chains[b := c], cut) ==
      Excess(chains, cut) - (if |chains[b]| > cut then |chains[b]| - cut else 0)
                          + (if |c| > cut then |c| - cut else 0)
    decreases b
  {
    if b == 0 {
      assert chains[b := c][1..] == chains[1..];
    } else {
      ExcessUpdate(chains[1..], cut, b - 1, c);
      assert chains[b := c][1..] == chains[1..][b - 1 := c];
    }
  }

  lemma {:induction false} ExcessEmpty(chains: seq<seq<Elem>>, cut: nat)
    requires forall b :: 0 <= b < |chains| ==> chains[b] == []
    ensures Excess(chains, cut) == 0
  {
    if chains != [] { ExcessEmpty(chains[1..], cut); }
  }

  lemma {:induction false} ExcessAppend(chains: seq<seq<Elem>>, cut: nat, c: seq<Elem>)
    ensures Excess(chains + [c], cut) == Excess(chains, cut) + (if |c| > cut then |c| - cut else 0)
  {
    if chains == [] {
      assert ([] + [c])[1..] == [];
    } else {
      ExcessAppend(chains[1..], cut, c);
      assert (chains + [c])[1..] == chains[1..] + [c];
    }
  }

  /** HASH_TO_BKT for an element, in a table of n buckets. */
  ghost function Slot(hash: Key -> nat, e: Elem, n: nat): nat
    requires n > 0
  {
    BitAnd(hash(e.key), n - 1)
  }

  /** Chain `b` holds members only, each once, and only those that hash to bucket b. */
  ghost predicate BucketOk(hash: Key -> nat, chains: seq<seq<Elem>>, members: seq<Elem>, b: nat)
  {
    && b < |chains|
    && Distinct(chains[b])
    && forall j :: 0 <= j < |chains[b]| ==> chains[b][j] in members && Slot(hash, chains[b][j], |chains|) == b
  }

  ghost predicate Homed(hash: Key -> nat, chains: seq<seq<Elem>>, e: Elem)
  {
    && |chains| > 0 && Slot(hash, e, |chains|) < |chains|
    && Occurs(chains[Slot(hash, e, |chains|)], e)
  }

  /** The chains hold exactly `members`, each once and in the bucket of its hash value. */
  ghost predicate Partition(hash: Key -> nat, chains: seq<seq<Elem>>, members: seq<Elem>)
  {
    && |chains| > 0
    && (forall b {:trigger BucketOk(hash, chains, members, b)} :: 0 <= b < |chains| ==> BucketOk(hash, chains, members, b))
    && (forall e {:trigger Homed(hash, chains, e)} :: e in members ==> Homed(hash, chains, e))
    && |members| == Excess(chains, 0)
  }

  /** In a table of a power of two of buckets, a bucket holds the members with its remainder, each once. */
  lemma ChainsAre(hash: Key -> nat, chains: seq<seq<Elem>>, members: seq<Elem>, k: nat, b: nat)
    requires Partition(hash, chains, members) && |chains| == Pow2(k) && b < |chains|
    ensures forall e :: e in chains[b] <==> e in members && hash(e.key) % Pow2(k) == b
    ensures forall i, j :: 0 <= i < j < |chains[b]| ==> chains[b][i] != chains[b][j]
  {
    assert BucketOk(hash, chains, members, b);
    forall e ensures e in chains[b] <==> e in members && hash(e.key) % Pow2(k) == b {
      MaskIsRemainder(hash(e.key), k);
      if e in members && hash(e.key) % Pow2(k) == b {
        assert Homed(hash, chains, e);
        OccursIsMembership(chains[b], e);
      }
    }
  }

  /** The places in the chains that lie beyond the first `cut`. */
  ghost function Beyond(chains: seq<seq<Elem>>, cut: nat): set<(nat, nat)>
  {
    set b: nat, j: nat | b < |chains| && cut <= j < |chains[b]| :: (b, j)
  }

  /** nonideal_items is the number of items that lie beyond the ideal length of their chain. */
  lemma {:induction false} ExcessCounts(chains: seq<seq<Elem>>, cut: nat)
    ensures Excess(chains, cut) == |Beyond(chains, cut)|
    decreases |chains|
  {
    if chains != [] {
      var n := |chains| - 1;
      var front, c := chains[..n], chains[n];
      assert chains == front + [c];
      ExcessCounts(front, cut);
      ExcessAppend(front, cut, c);
      var row := PlacesOf(n, |c|, cut);
      assert Beyond(chains, cut) == Beyond(front, cut) + row;
    }
  }

  lemma {:induction false} PlacesOf(b: nat, len: nat, cut: nat) returns (row: set<(nat, nat)>)
    ensures row == (set j: nat | cut <= j < len :: (b, j))
    ensures |row| == if len > cut then len - cut else 0
    decreases len
  {
    if len <= cut {
      row := {};
    } else {
      var front := PlacesOf(b, len - 1, cut);
      row := front + {(b, len - 1)};
    }
  }

  lemma PartitionAdd(hash: Key -> nat, chains: seq<seq<Elem>>, members: seq<Elem>, e: Elem, b: nat,
                     chains': seq<seq<Elem>>, members': seq<Elem>)
    requires Partition(hash, chains, members) && e !in members
    requires b == Slot(hash, e, |chains|)
    requires chains' == chains[b := [e] + chains[b]] && members' == members + [e]
    ensures Partition(hash, chains', members')
  {
    var c := [e] + chains[b];
    ExcessUpdate(chains, 0, b, c);
    forall k | 0 <= k < |chains'| ensures BucketOk(hash, chains', members', k) {
      assert BucketOk(hash, chains, members, k);
      assert forall j :: 0 <= j < |chains[b]| ==> c[j + 1] == chains[b][j];
    }
    forall x | x in members' ensures Homed(hash, chains', x) {
      if x != e { assert Homed(hash, chains, x); }
      assert c[1..] == chains[b];
    }
  }

  ghost function RemoveAt(s: seq<Elem>, i: nat): seq<Elem>
    requires i < |s|
  {
    s[..i] + s[i + 1..]
  }

  /** The survivors of deleting `e`, in their old order. */
  ghost function Without(s: seq<Elem>, e: Elem): seq<Elem>
  {
    if s == [] then [] else if s[0] == e then Without(s[1..], e) else [s[0]] + Without(s[1..], e)
  }

  lemma {:induction false} WithoutIsRemoveAt(s: seq<Elem>, i: nat)
    requires i < |s| && Distinct(s)
    ensures Without(s, s[i]) == RemoveAt(s, i)
  {
    DistinctTail(s);
    if i == 0 {
      WithoutAbsent(s[1..], s[0]);
      assert RemoveAt(s, 0) == s[1..];
    } else {
      assert s[1..][i - 1] == s[i];
      WithoutIsRemoveAt(s[1..], i - 1);
      RemoveFromTail(s, i);
    }
  }

  lemma DistinctTail(s: seq<Elem>)
    requires s != [] && Distinct(s)
    ensures Distinct(s[1..]) && s[0] !in s[1..]
  {
  }

  lemma RemoveFromTail(s: seq<Elem>, i: nat)
    requires 0 < i < |s|
    ensures RemoveAt(s, i) == [s[0]] + RemoveAt(s[1..], i - 1)
  {
  }

  lemma {:induction false} WithoutAbsent(s: seq<Elem>, e: Elem)
    requires e !in s
    ensures Without(s, e) == s
  {
    if s != [] { WithoutAbsent(s[1..], e); }
  }

  lemma PartitionRemove(hash: Key -> nat, chains: seq<seq<Elem>>, members: seq<Elem>, b: nat, j: nat, i: nat,
                        chains': seq<seq<Elem>>, members': seq<Elem>)
    requires Partition(hash, chains, members) && Distinct(members)
    requires i < |members| && b < |chains| && j < |chains[b]| && chains[b][j] == members[i]
    requires chains' == chains[b := RemoveAt(chains[b], j)] && members' == RemoveAt(members, i)
    ensures Partition(hash, chains', members')
  {
    var e, c := members[i], RemoveAt(chains[b], j);
    assert BucketOk(hash, chains, members, b);
    ExcessUpdate(chains, 0, b, c);
    forall x | x in members && x != e ensures x in members' {
      var k :| 0 <= k < |members| && members[k] == x;
      assert members'[if k < i then k else k - 1] == x;
    }
    forall k | 0 <= k < |chains'| ensures BucketOk(hash, chains', members', k) {
      assert BucketOk(hash, chains, members, k);
    }
    forall x | x in members' ensures Homed(hash, chains', x) {
      assert x in members && x != e;
      assert Homed(hash, chains, x);
      var h := Slot(hash, x, |chains|);
      if h == b {
        OccursIsMembership(chains[b], x);
        var k :| 0 <= k < |chains[b]| && chains[b][k] == x;
        assert c[if k < j then k else k - 1] == x;
        OccursIsMembership(c, x);
      }
    }
  }

  lemma PermutedMembers(nodes: seq<Elem>, perm: seq<nat>, cmp: (Item, Item) -> int)
    requires Distinct(nodes) && IsStableSort(Items(nodes), cmp, perm) && Positions(nodes, perm)
    ensures var s := Permuted(nodes, perm);
      |s| == |nodes| && Distinct(s) && forall e :: e in s <==> e in nodes
  {
    var s := Permuted(nodes, perm);
    AllIndicesOccur(perm, |nodes|);
    forall e | e in nodes ensures e in s {
      var i: nat :| i < |nodes| && nodes[i] == e;
      assert i in perm;
      var k :| 0 <= k < |perm| && perm[k] == i;
      assert s[k] == e;
    }
  }

  /** Only the set of members matters to the chains, not their order. */
  lemma PartitionMembers(hash: Key -> nat, chains: seq<seq<Elem>>, m: seq<Elem>, m': seq<Elem>)
    requires Partition(hash, chains, m) && |m| == |m'| && forall e :: e in m' <==> e in m
    ensures Partition(hash, chains, m')
  {
    forall b | 0 <= b < |chains| ensures BucketOk(hash, chains, m', b) {
      assert BucketOk(hash, chains, m, b);
    }
    forall e | e in m' ensures Homed(hash, chains, e) {
      assert e in m;
    }
  }

  lemma PartitionDisjoint(hash: Key -> nat, chains: seq<seq<Elem>>, members: seq<Elem>, b: nat, k: nat)
    requires Partition(hash, chains, members) && b < |chains| && k < |chains| && b != k
    ensures forall i, j :: 0 <= i < |chains[b]| && 0 <= j < |chains[k]| ==> chains[b][i] != chains[k][j]
  {
    assert BucketOk(hash, chains, members, b) && BucketOk(hash, chains, members, k);
  }

  /** The old bucket whose items can land in new bucket `b` when n buckets become 2n. */
  ghost function Low(b: nat, n: nat): nat
  {
    if b < n then b else b - n
  }

  /**
    What new bucket `b` of `m` receives from one old chain.  The old chain is walked from
    its head and every item is pushed at the front, so the order is reversed.
    */
  ghost function Split(hash: Key -> nat, chain: seq<Elem>, b: nat, m: nat): seq<Elem>
    requires m > 0
  {
    if chain == [] then []
    else
      var e := chain[|chain| - 1];
      var rest := Split(hash, chain[..|chain| - 1], b, m);
      if Slot(hash, e, m) == b then [e] + rest else rest
  }

  lemma SplitOneMore(hash: Key -> nat, chain: seq<Elem>, j: nat, b: nat, m: nat)
    requires m > 0 && j < |chain|
    ensures Split(hash, chain[..j + 1], b, m) ==
      if Slot(hash, chain[j], m) == b then [chain[j]] + Split(hash, chain[..j], b, m) else Split(hash, chain[..j], b, m)
  {
    assert chain[..j + 1][..j] == chain[..j];
  }

  /** New bucket `b` gets exactly the items that hash to it, each once. */
  lemma {:induction false} SplitElements(hash: Key -> nat, chain: seq<Elem>, b: nat, m: nat)
    requires m > 0
    ensures forall e :: e in Split(hash, chain, b, m) <==> e in chain && Slot(hash, e, m) == b
    ensures Distinct(chain) ==> Distinct(Split(hash, chain, b, m))
    ensures |Split(hash, chain, b, m)| <= |chain|
  {
    if chain == [] {
    } else {
      var init := chain[..|chain| - 1];
      SplitElements(hash, init, b, m);
      assert chain == init + [chain[|chain| - 1]];
    }
  }

  /** The two halves of one old chain together hold as many items as it did. */
  lemma {:induction false} SplitSizes(hash: Key -> nat, chain: seq<Elem>, b: nat, n: nat, k: nat)
    requires n == Pow2(k) && b < n
    requires forall j :: 0 <= j < |chain| ==> Slot(hash, chain[j], n) == b
    ensures |Split(hash, chain, b, 2 * n)| + |Split(hash, chain, b + n, 2 * n)| == |chain|
  {
    if chain == [] {
    } else {
      var e := chain[|chain| - 1];
      SplitTargets(hash(e.key), k);
      SplitSizes(hash, chain[..|chain| - 1], b, n, k);
    }
  }

  ghost predicate IsExpansion(hash: Key -> nat, chains: seq<seq<Elem>>, chains': seq<seq<Elem>>)
  {
    && |chains| > 0 && |chains'| == 2 * |chains|
    && forall b :: 0 <= b < |chains'| ==>
         chains'[b] == Split(hash, chains[Low(b, |chains|)], b, |chains'|)
  }

  lemma {:induction false} ExcessConcat(c: seq<seq<Elem>>, d: seq<seq<Elem>>, cut: nat)
    ensures Excess(c + d, cut) == Excess(c, cut) + Excess(d, cut)
  {
    if c == [] {
      assert c + d == d;
    } else {
      ExcessConcat(c[1..], d, cut);
      assert (c + d)[1..] == c[1..] + d;
    }
  }

  lemma {:induction false} ExcessHalves(c: seq<seq<Elem>>, lo: seq<seq<Elem>>, hi: seq<seq<Elem>>)
    requires |c| == |lo| == |hi|
    requires forall b :: 0 <= b < |c| ==> |lo[b]| + |hi[b]| == |c[b]|
    ensures Excess(lo, 0) + Excess(hi, 0) == Excess(c, 0)
  {
    if c != [] {
      assert |lo[0]| + |hi[0]| == |c[0]|;
      ExcessHalves(c[1..], lo[1..], hi[1..]);
    }
  }

  lemma ExpansionSize(hash: Key -> nat, chains: seq<seq<Elem>>, members: seq<Elem>, chains': seq<seq<Elem>>, k: nat)
    requires Partition(hash, chains, members) && IsExpansion(hash, chains, chains') && |chains| == Pow2(k)
    ensures Excess(chains', 0) == Excess(chains, 0)
  {
    var n := |chains|;
    var lo, hi := chains'[..n], chains'[n..];
    forall b | 0 <= b < n ensures |lo[b]| + |hi[b]| == |chains[b]| {
      assert BucketOk(hash, chains, members, b);
      SplitSizes(hash, chains[b], b, n, k);
      assert hi[b] == chains'[b + n];
    }
    ExcessHalves(chains, lo, hi);
    ExcessConcat(lo, hi, 0);
    assert lo + hi == chains';
  }

  /** Expansion keeps the set of items and puts each into its bucket of the doubled table. */
  lemma ExpansionPartition(hash: Key -> nat, chains: seq<seq<Elem>>, members: seq<Elem>, chains': seq<seq<Elem>>, k: nat)
    requires Partition(hash, chains, members) && |chains| == Pow2(k)
    requires IsExpansion(hash, chains, chains')
    ensures Partition(hash, chains', members)
  {
    var n, m := |chains|, |chains'|;
    forall b | 0 <= b < m ensures BucketOk(hash, chains', members, b) {
      assert BucketOk(hash, chains, members, Low(b, n));
      SplitElements(hash, chains[Low(b, n)], b, m);
      assert forall j :: 0 <= j < |chains'[b]| ==> chains'[b][j] in chains'[b];
    }
    forall e | e in members ensures Homed(hash, chains', e) {
      assert Homed(hash, chains, e);
      var b := Slot(hash, e, m);
      SplitTargets(hash(e.key), k);
      OccursIsMembership(chains[Low(b, n)], e);
      SplitElements(hash, chains[Low(b, n)], b, m);
      OccursIsMembership(chains'[b], e);
    }
    ExpansionSize(hash, chains, members, chains', k);
  }

  /** expand_mult of a bucket: count / ideal if it is overfull, 0 if not. */
  ghost function Multiple(count: nat, ideal: nat): nat
  {
    if count > ideal then Quotient(count, ideal) else 0
  }

  /** It is 0 for a chain of at most the ideal length, and else how often that goes into it. */
  lemma MultipleIs(count: nat, ideal: nat)
    requires ideal > 0
    ensures var m := Multiple(count, ideal);
      if count <= ideal then m == 0 else m * ideal <= count < (m + 1) * ideal
  {
    if count > ideal {
      QuotientRemainder(count, ideal);
    }
  }

  /** From position j on the forward links are still those of the chain. */
  ghost predicate NextLinks(s: seq<Elem>, j: nat)
    reads s`hhNext
  {
    forall k {:trigger s[k].hhNext} :: j <= k < |s| ==> s[k].hhNext == At(s, k + 1)
  }

  function ShiftRight(n: nat, k: nat): nat
  {
    if k == 0 then n else ShiftRight(n / 2, k - 1)
  }

  /** n / 2^k rounded up, computed with a shift and a mask as the source does. */
  function CeilShift(n: nat, k: nat): nat
  {
    ShiftRight(n, k) + if BitAnd(n, Pow2(k) - 1) != 0 then 1 else 0
  }

  lemma {:induction false} ShiftAndMask(n: nat, k: nat)
    ensures n == Pow2(k) * ShiftRight(n, k) + BitAnd(n, Pow2(k) - 1)
    ensures BitAnd(n, Pow2(k) - 1) < Pow2(k)
    decreases k
  {
    if k > 0 {
      var p := Pow2(k - 1);
      ShiftAndMask(n / 2, k - 1);
      assert (2 * p - 1) / 2 == p - 1 && (2 * p - 1) % 2 == 1;
      DoubleProduct(p, ShiftRight(n / 2, k - 1));
    }
  }

  lemma DoubleProduct(p: nat, s: nat)
    ensures (2 * p) * s == 2 * (p * s)
  {
  }

  lemma CeilShiftIsCeiling(n: nat, k: nat)
    ensures var c, m := CeilShift(n, k), Pow2(k);
      if n == 0 then c == 0 else c > 0 && m * (c - 1) < n <= m * c
  {
    ShiftAndMask(n, k);
    CeilBounds(n, Pow2(k), ShiftRight(n, k), BitAnd(n, Pow2(k) - 1));
  }

  lemma CeilShiftPositive(n: nat, k: nat)
    requires n > 0
    ensures CeilShift(n, k) > 0
  {
    CeilShiftIsCeiling(n, k);
  }

  lemma CeilBounds(n: nat, m: nat, s: nat, r: nat)
    requires n == m * s + r && r < m
    ensures var c := s + if r != 0 then 1 else 0;
      if n == 0 then c == 0 else c > 0 && m * (c - 1) < n <= m * c
  {
    if s > 0 { MulMono(m, s); }
    assert m * (s + 1) == m * s + m;
    assert m * (s - 1) == m * s - m;
  }

  class Table {
    const hash: Key -> nat
    var head: Elem?
    // the fields below are the UT_hash_table; they mean nothing while head is null
    var tail: Elem?
    var buckets: array<Bucket>
    var numBuckets: nat
    var log2NumBuckets: nat
    var numItems: nat
    var idealChainMaxlen: nat
    var nonidealItems: nat
    var ineffExpands: nat
    var noexpand: bool
    ghost var order: seq<Elem>           // application order
    ghost var chains: seq<seq<Elem>>     // bucket chains

    ghost predicate AppList()
      reads `head, `tail, `order, order`prev, order`next
    {
      && head == At(order, 0)
      && (order != [] ==> tail == order[|order| - 1])
      && AppLinks(order)
      && Distinct(order)
    }

    /** The chains hold exactly `members`, and the bucket array and links describe the chains. */
    ghost predicate Chained(members: seq<Elem>)
      reads `numBuckets, `log2NumBuckets, `buckets, `chains, buckets, members`hashv, members`hhPrev, members`hhNext
    {
      && numBuckets == Pow2(log2NumBuckets)
      && buckets.Length == |chains| == numBuckets
      && Partition(hash, chains, members)
      && (forall b {:trigger BucketOk(hash, chains, members, b)} :: 0 <= b < |chains| ==>
            BucketOk(hash, chains, members, b) && Chain(chains[b], buckets[b]))
      && (forall e :: e in members ==> e.hashv == hash(e.key))
    }

    /** What HASH_FSCK checks, and what the list and bucket operations rely on. */
    ghost predicate Valid()
      reads this, buckets, order
    {
      AppList() && (order != [] ==> Chained(order) && numItems == |order|)
    }

    constructor (hash: Key -> nat)
      ensures Valid() && order == [] && this.hash == hash
    {
      this.hash := hash;
      head, tail := null, null;
      buckets := new Bucket[0];
      numBuckets, log2NumBuckets, numItems := 0, 0, 0;
      idealChainMaxlen, nonidealItems, ineffExpands, noexpand := 0, 0, 0, false;
      order, chains := [], [];
    }

    method Find(key: Key) returns (out: Elem?)
      requires Valid()
      ensures out == null ==> forall e :: e in order ==> e.key != key
      ensures out != null ==> out in order && out.key == key
    {
      out := null;
      if head != null {
        var bkt := BitAnd(hash(key), numBuckets - 1);
        out := buckets[bkt].hhHead;
        ghost var chain := chains[bkt];
        assert BucketOk(hash, chains, order, bkt);
        ghost var j := 0;
        while out != null
          invariant 0 <= j <= |chain| && out == At(chain, j)
          invariant forall k :: 0 <= k < j ==> chain[k].key != key
          decreases |chain| - j
        {
          if out.key == key { return; }
          out := out.hhNext;
          j := j + 1;
        }
        assert j == |chain|;
        forall e | e in order && e.key == key ensures false {
          assert Homed(hash, chains, e);
          OccursIsMembership(chains[bkt], e);
        }
      }
    }

    method Add(add: Elem)
      requires Valid() && add !in order
      modifies this, buckets, order, add
      ensures Valid() && order == old(order) + [add]
      ensures buckets == old(buckets) || fresh(buckets)
    {
      ghost var members := order;
      if head == null {
        MakeTable();
      }
      AddTo(add, members);
    }

    /** HASH_ADD once there is a table. */
    method AddTo(add: Elem, ghost members: seq<Elem>)
      requires AppList() && Chained(order) && numItems == |order| && members == order && add !in order
      modifies this, buckets, order, add
      ensures Valid() && order == members + [add]
      ensures buckets == old(buckets) || fresh(buckets)
    {
      LinkLast(add);
      AddToBucket(BitAnd(add.hashv, numBuckets - 1), add, members);
    }

    /** Append to the application order and record the hash value. */
    method LinkLast(add: Elem)
      requires AppList() && add !in order
      modifies `head, `tail, `order, `numItems, order`next, add`prev, add`next, add`hashv
      ensures AppList() && order == old(order) + [add]
      ensures numItems == old(numItems) + 1 && add.hashv == hash(add.key)
    {
      add.next := null;
      if head == null {
        head := add;
        add.prev := null;
      } else {
        tail.next := add;
        add.prev := tail;
      }
      tail := add;
      numItems := numItems + 1;
      add.hashv := hash(add.key);
      ghost var members := order;
      order := members + [add];
      assert forall i :: 0 <= i < |members| ==> order[i] == members[i];
    }

    /** HASH_MAKE_TABLE: an empty table of the initial size. */
    method MakeTable()
      modifies `buckets, `chains, `numBuckets, `log2NumBuckets, `numItems,
               `idealChainMaxlen, `nonidealItems, `ineffExpands, `noexpand
      ensures fresh(buckets) && numBuckets == 32 && numItems == 0
      ensures idealChainMaxlen == nonidealItems == ineffExpands == 0 && !noexpand
      ensures Chained([])
    {
      numBuckets, log2NumBuckets, numItems := INITIAL_NUM_BUCKETS, INITIAL_NUM_BUCKETS_LOG2, 0;
      idealChainMaxlen, nonidealItems, ineffExpands, noexpand := 0, 0, 0, false;
      buckets := new Bucket[INITIAL_NUM_BUCKETS](_ => Bucket(null, 0, 0));
      chains := seq(INITIAL_NUM_BUCKETS, _ => []);
      NothingChained(chains);
    }

    lemma NothingChained(cs: seq<seq<Elem>>)
      requires |cs| == INITIAL_NUM_BUCKETS && forall b :: 0 <= b < |cs| ==> cs[b] == []
      ensures Partition(hash, cs, []) && INITIAL_NUM_BUCKETS == Pow2(INITIAL_NUM_BUCKETS_LOG2)
      ensures forall b :: 0 <= b < |cs| ==> BucketOk(hash, cs, [], b) && Chain(cs[b], Bucket(null, 0, 0))
    {
      ExcessEmpty(cs, 0);
      assert Pow2(5) == 32 by { assert Pow2(4) == 16 by { assert Pow2(2) == 4; } }
    }

    /** HASH_ADD_TO_BKT: link the newest element, then expand if its bucket has grown too long. */
    method AddToBucket(bkt: nat, e: Elem, ghost members: seq<Elem>)
      requires Chained(members) && e !in members && order == members + [e]
      requires numItems == |order|
      requires e.hashv == hash(e.key) && bkt == Slot(hash, e, numBuckets)
      modifies this`buckets, `numBuckets, `log2NumBuckets, `chains, `idealChainMaxlen, `nonidealItems,
               `ineffExpands, `noexpand, buckets, order`hhPrev, order`hhNext
      ensures Chained(order)
      ensures var linked := old(chains)[bkt := [e] + old(chains[bkt])];
        if |linked[bkt]| >= (old(buckets[bkt].expandMult) + 1) * 10 && !old(noexpand)
        then fresh(buckets) && IsExpansion(hash, linked, chains)
        else buckets == old(buckets) && chains == linked
    {
      assert e == order[|members|] && forall j :: 0 <= j < |members| ==> members[j] == order[j];
      LinkInBucket(bkt, e, members);
      assert BucketOk(hash, chains, order, bkt);
      if buckets[bkt].count >= (buckets[bkt].expandMult + 1) * BKT_CAPACITY_THRESH && !noexpand {
        ExpandBuckets();
      }
    }

    method LinkInBucket(bkt: nat, e: Elem, ghost members: seq<Elem>)
      requires Chained(members) && e !in members && order == members + [e]
      requires numItems == |order|
      requires e.hashv == hash(e.key) && bkt == Slot(hash, e, numBuckets)
      modifies `chains, buckets, members`hhPrev, e`hhPrev, e`hhNext
      ensures Chained(order) && chains == old(chains)[bkt := [e] + old(chains[bkt])]
      ensures buckets[bkt].expandMult == old(buckets[bkt].expandMult)
    {
      ghost var chains' := chains[bkt := [e] + chains[bkt]];
      assert BucketOk(hash, chains, members, bkt);
      forall k | 0 <= k < |chains| && k != bkt ensures chains[bkt] == [] || chains[bkt][0] !in chains[k] {
        PartitionDisjoint(hash, chains, members, k, bkt);
      }
      PushFront(buckets, bkt, e, chains[bkt]);
      forall k | 0 <= k < |chains'| ensures Chain(chains'[k], buckets[k]) {
        assert old(BucketOk(hash, chains, members, k));
        if k != bkt { assert old(Chain(chains[k], buckets[k])); }
      }
      PartitionAdd(hash, chains, members, e, bkt, chains', order);
      chains := chains';
    }

    method Delete(del: Elem)
      requires Valid() && del in order
      modifies this, buckets, order
      ensures Valid() && order == Without(old(order), del)
      ensures buckets == old(buckets)
    {
      ghost var members := order;
      ghost var i :| 0 <= i < |members| && members[i] == del;
      WithoutIsRemoveAt(members, i);
      if del.prev == null && del.next == null {
        assert |members| == 1 by { assert members[i].next == At(members, i + 1) && members[i].prev == At(members, i - 1); }
        head := null;
        order := [];
      } else {
        DeleteOne(del, i);
      }
    }

    /** HASH_DELETE for an element that is not alone. */
    method DeleteOne(del: Elem, ghost i: nat)
      requires AppList() && Chained(order) && numItems == |order|
      requires i < |order| && order[i] == del && (del.prev != null || del.next != null)
      modifies `head, `tail, `order, `numItems, `chains, buckets, order`prev, order`next, order`hhPrev, order`hhNext
      ensures AppList() && Chained(order) && numItems == |order|
      ensures order == RemoveAt(old(order), i)
    {
      ghost var members := order;
      assert del.hashv == hash(del.key) && numBuckets > 0;
      Unlink(del, i);
      DeleteFromBucket(BitAnd(del.hashv, numBuckets - 1), del, members, i);
    }

    /** Take an element that is not alone out of the application order. */
    method Unlink(del: Elem, ghost i: nat)
      requires AppList() && i < |order| && order[i] == del && (del.prev != null || del.next != null)
      requires numItems == |order|
      modifies `head, `tail, `order, `numItems, order`prev, order`next
      ensures AppList() && order == RemoveAt(old(order), i) && numItems == |order|
    {
      assert order[i].next == At(order, i + 1) && order[i].prev == At(order, i - 1);
      if del == tail {
        tail := del.prev;
      }
      if del.prev == null {
        head := del.next;
      }
      numItems := numItems - 1;
      ListDelete(del, order, i);
      RemoveAtDistinct(order, i);
      order := RemoveAt(order, i);
    }

    /** HASH_DEL_IN_BKT, for the element that was at position `i` of `members`. */
    method DeleteFromBucket(bkt: nat, del: Elem, ghost members: seq<Elem>, ghost i: nat)
      requires Chained(members) && Distinct(members) && i < |members| && members[i] == del
      requires bkt == Slot(hash, del, numBuckets) && order == RemoveAt(members, i)
      modifies `chains, buckets, members`hhPrev, members`hhNext
      ensures Chained(order)
    {
      assert Homed(hash, chains, del) && BucketOk(hash, chains, members, bkt);
      OccursIsMembership(chains[bkt], del);
      ghost var j :| 0 <= j < |chains[bkt]| && chains[bkt][j] == del;
      ghost var chains' := chains[bkt := RemoveAt(chains[bkt], j)];
      forall k | 0 <= k < |chains| && k != bkt
        ensures Chain(chains[k], buckets[k])
        ensures forall x, y :: 0 <= x < |chains[bkt]| && 0 <= y < |chains[k]| ==> chains[bkt][x] != chains[k][y]
      {
        assert BucketOk(hash, chains, members, k);
        PartitionDisjoint(hash, chains, members, bkt, k);
      }
      ChainDelete(buckets, bkt, del, chains[bkt], j);
      PartitionRemove(hash, chains, members, bkt, j, i, chains', order);
      forall k | 0 <= k < |chains'| ensures Chain(chains'[k], buckets[k]) {
        if k != bkt { assert old(Chain(chains[k], buckets[k])); }
      }
      chains := chains';
    }

    /**
      HASH_SRT: the application order becomes the stable sort of the old one.  The bucket
      chains and every figure of the table are outside the frame, so they do not change.
      */
    method Sort(cmp: (Item, Item) -> int) returns (ghost perm: seq<nat>)
      requires Valid() && TotalPreorder(cmp)
      modifies `head, `tail, `order, order`prev, order`next
      ensures Valid()
      ensures IsStableSort(Items(old(order)), cmp, perm)
      ensures Positions(old(order), perm) && order == Permuted(old(order), perm)
    {
      ghost var nodes := order;
      if head == null {
        perm := [];
        return;
      }
      perm := SortElements(cmp);
    }

    method SortElements(cmp: (Item, Item) -> int) returns (ghost perm: seq<nat>)
      requires AppList() && Chained(order) && head != null && TotalPreorder(cmp)
      modifies `head, `tail, `order, order`prev, order`next
      ensures AppList() && Chained(order) && |order| == |old(order)|
      ensures IsStableSort(Items(old(order)), cmp, perm)
      ensures Positions(old(order), perm) && order == Permuted(old(order), perm)
    {
      ghost var nodes := order;
      var list, last;
      list, last, perm := SortList(head, cmp, nodes);
      SortedMembers(nodes, perm, cmp);
      Reorder(list, last, Permuted(nodes, perm));
    }

    lemma SortedMembers(nodes: seq<Elem>, perm: seq<nat>, cmp: (Item, Item) -> int)
      requires Chained(nodes) && Distinct(nodes) && nodes != [] && IsStableSort(Items(nodes), cmp, perm) && Positions(nodes, perm)
      ensures var s := Permuted(nodes, perm); Chained(s) && Distinct(s) && |s| == |nodes|
    {
      PermutedMembers(nodes, perm, cmp);
      ChainedMembers(nodes, Permuted(nodes, perm));
    }

    lemma ChainedMembers(m: seq<Elem>, m': seq<Elem>)
      requires Chained(m) && |m| == |m'| && forall e :: e in m' <==> e in m
      ensures Chained(m')
    {
      PartitionMembers(hash, chains, m, m');
      forall b | 0 <= b < |chains| ensures Chain(chains[b], buckets[b]) {
        assert BucketOk(hash, chains, m, b);
      }
    }

    method Reorder(list: Elem?, last: Elem?, ghost s: seq<Elem>)
      requires AppLinks(s) && Distinct(s) && s != [] && list == s[0] && last == s[|s| - 1]
      modifies `head, `tail, `order
      ensures AppList() && order == s
    {
      head, tail, order := list, last, s;
    }

    /**
      HASH_EXPAND_BUCKETS: twice as many buckets, every item moved to the bucket of its
      hash value, and the figures by which the table judges how even the result is.
      */
    method ExpandBuckets()
      requires Chained(order) && numItems == |order| > 0
      modifies this`buckets, `numBuckets, `log2NumBuckets, `chains, `idealChainMaxlen, `nonidealItems,
               `ineffExpands, `noexpand, order`hhPrev, order`hhNext
      ensures Chained(order) && fresh(buckets)
      ensures log2NumBuckets == old(log2NumBuckets) + 1
      ensures IsExpansion(hash, old(chains), chains)
      ensures idealChainMaxlen == CeilShift(numItems, log2NumBuckets) > 0
      ensures nonidealItems == Excess(chains, idealChainMaxlen)
      ensures forall b :: 0 <= b < numBuckets ==> buckets[b].expandMult == Multiple(|chains[b]|, idealChainMaxlen)
      ensures ineffExpands == (if nonidealItems > numItems / 2 then old(ineffExpands) + 1 else 0)
      ensures noexpand == (old(noexpand) || ineffExpands > 1)
    {
      CeilShiftPositive(numItems, log2NumBuckets + 1);
      var newBuckets, newChains := Rehash(CeilShift(numItems, log2NumBuckets + 1));
      Install(newBuckets, newChains);
    }

    method Install(newBuckets: array<Bucket>, ghost newChains: seq<seq<Elem>>)
      requires Partition(hash, newChains, order) && forall e :: e in order ==> e.hashv == hash(e.key)
      requires |newChains| == 2 * numBuckets && numBuckets == Pow2(log2NumBuckets)
      requires Filling(newBuckets, newChains)
      modifies `buckets, `numBuckets, `log2NumBuckets, `chains, `ineffExpands, `noexpand
      ensures Chained(order) && buckets == newBuckets && chains == newChains
      ensures log2NumBuckets == old(log2NumBuckets) + 1
      ensures nonidealItems == Excess(chains, idealChainMaxlen)
      ensures forall b :: 0 <= b < numBuckets ==> buckets[b].expandMult == Multiple(|chains[b]|, idealChainMaxlen)
      ensures ineffExpands == (if nonidealItems > numItems / 2 then old(ineffExpands) + 1 else 0)
      ensures noexpand == (old(noexpand) || ineffExpands > 1)
    {
      forall b | 0 <= b < |newChains|
        ensures Chain(newChains[b], newBuckets[b]) && newBuckets[b].expandMult == Multiple(|newChains[b]|, idealChainMaxlen)
      {
        assert FillingAt(newBuckets, newChains, b);
      }
      numBuckets := numBuckets * 2;
      log2NumBuckets := log2NumBuckets + 1;
      buckets := newBuckets;
      chains := newChains;
      ineffExpands := if nonidealItems > numItems / 2 then ineffExpands + 1 else 0;
      if ineffExpands > 1 {
        noexpand := true;
      }
    }

    method Rehash(ideal: nat) returns (newBuckets: array<Bucket>, ghost newChains: seq<seq<Elem>>)
      requires Chained(order) && ideal > 0
      modifies `idealChainMaxlen, `nonidealItems, order`hhPrev, order`hhNext
      ensures idealChainMaxlen == ideal && Partition(hash, newChains, order)
      ensures fresh(newBuckets) && newBuckets.Length == |newChains|
      ensures Filling(newBuckets, newChains) && IsExpansion(hash, chains, newChains)
    {
      newBuckets, newChains := NewBuckets(ideal);
      AllToMove();
      var i := 0;
      while i < numBuckets
        invariant 0 <= i <= numBuckets && Source() && ToMove(i)
        invariant Moved(newChains, i, 0) && Filling(newBuckets, newChains) && idealChainMaxlen == ideal
        modifies `nonidealItems, newBuckets, order`hhPrev, order`hhNext
      {
        newChains := MoveBucket(i, newBuckets, newChains);
        i := i + 1;
      }
      AllMoved(newChains);
    }

    /** The old table, as far as moving its items does not change it. */
    ghost predicate Source()
      reads `numBuckets, `log2NumBuckets, `buckets, `chains, `order, order`hashv
    {
      && numBuckets == Pow2(log2NumBuckets)
      && buckets.Length == |chains| == numBuckets
      && Partition(hash, chains, order)
      && (forall e :: e in order ==> e.hashv == hash(e.key))
    }

    /** From bucket `i` on the old chains can still be walked. */
    ghost predicate ToMove(i: nat)
      requires Source()
      reads `numBuckets, `log2NumBuckets, `buckets, `chains, `order, order`hashv, buckets, order`hhNext
    {
      forall k {:trigger BucketOk(hash, chains, order, k)} :: i <= k < |chains| ==>
        BucketOk(hash, chains, order, k) && NextLinks(chains[k], 0) && buckets[k].hhHead == At(chains[k], 0)
    }

    lemma AllToMove()
      requires Chained(order)
      ensures Source() && ToMove(0)
    {
      forall k | 0 <= k < |chains| ensures NextLinks(chains[k], 0) && buckets[k].hhHead == At(chains[k], 0) {
        assert BucketOk(hash, chains, order, k);
      }
    }

    method NewBuckets(ideal: nat) returns (nb: array<Bucket>, ghost nc: seq<seq<Elem>>)
      requires ideal > 0 && |chains| == numBuckets
      modifies `idealChainMaxlen, `nonidealItems
      ensures fresh(nb) && Filling(nb, nc) && Moved(nc, 0, 0)
      ensures idealChainMaxlen == ideal
    {
      nb := new Bucket[2 * numBuckets](_ => Bucket(null, 0, 0));
      nc := seq(2 * numBuckets, _ => []);
      idealChainMaxlen, nonidealItems := ideal, 0;
      NothingMoved(nc, ideal);
      forall b | 0 <= b < |nc| ensures FillingAt(nb, nc, b) {
      }
    }

    lemma NothingMoved(nc: seq<seq<Elem>>, ideal: nat)
      requires |nc| == 2 * |chains| && forall b :: 0 <= b < |nc| ==> nc[b] == []
      ensures Moved(nc, 0, 0) && Excess(nc, ideal) == 0
    {
      ExcessEmpty(nc, ideal);
      forall b | 0 <= b < |nc| ensures MovedAt(nc, 0, 0, b) {
        if Low(b, |chains|) == 0 && |chains| > 0 { assert chains[0][..0] == []; }
      }
    }

    lemma AllMoved(nc: seq<seq<Elem>>)
      requires Moved(nc, |chains|, 0) && Partition(hash, chains, order) && |chains| == Pow2(log2NumBuckets)
      ensures IsExpansion(hash, chains, nc) && Partition(hash, nc, order)
    {
      var n := |chains|;
      forall b | 0 <= b < 2 * n ensures nc[b] == Split(hash, chains[Low(b, n)], b, 2 * n) {
        assert MovedAt(nc, n, 0, b);
      }
      ExpansionPartition(hash, chains, order, nc, log2NumBuckets);
    }

    /** New bucket `b` describes its chain. */
    ghost predicate FillingAt(nb: array<Bucket>, nc: seq<seq<Elem>>, b: nat)
      reads nb, `order, `idealChainMaxlen, order`hhPrev, order`hhNext
    {
      && b < nb.Length == |nc|
      && (forall x :: 0 <= x < |nc[b]| ==> nc[b][x] in order)
      && Chain(nc[b], nb[b])
      && nb[b].expandMult == Multiple(|nc[b]|, idealChainMaxlen)
    }

    /** A table that is being filled. */
    ghost predicate Filling(nb: array<Bucket>, nc: seq<seq<Elem>>)
      reads nb, `order, `idealChainMaxlen, `nonidealItems, order`hhPrev, order`hhNext
    {
      && nb.Length == |nc| && idealChainMaxlen > 0
      && (forall b {:trigger FillingAt(nb, nc, b)} :: 0 <= b < |nc| ==> FillingAt(nb, nc, b))
      && nonidealItems == Excess(nc, idealChainMaxlen)
    }

    /** What new bucket `b` holds when the old buckets below `i` and `j` items of bucket `i` have been moved. */
    ghost predicate MovedAt(nc: seq<seq<Elem>>, i: nat, j: nat, b: nat)
      reads `chains
    {
      var n := |chains|;
      && b < |nc| == 2 * n
      && nc[b] ==
        if Low(b, n) < i then Split(hash, chains[Low(b, n)], b, 2 * n)
        else if Low(b, n) == i && j <= |chains[i]| then Split(hash, chains[i][..j], b, 2 * n)
        else []
    }

    ghost predicate Moved(nc: seq<seq<Elem>>, i: nat, j: nat)
      reads `chains
    {
      && |nc| == 2 * |chains|
      && forall b {:trigger MovedAt(nc, i, j, b)} :: 0 <= b < |nc| ==> MovedAt(nc, i, j, b)
    }

    lemma MovedElements(nc: seq<seq<Elem>>, i: nat, j: nat, b: nat)
      requires Partition(hash, chains, order) && Moved(nc, i, j)
      requires i < |chains| && j < |chains[i]| && b < |nc|
      ensures forall x :: 0 <= x < |nc[b]| ==>
        nc[b][x] in order && Slot(hash, nc[b][x], |nc|) == b && nc[b][x] != chains[i][j]
    {
      var n, c := |chains|, Low(b, |chains|);
      assert MovedAt(nc, i, j, b);
      assert BucketOk(hash, chains, order, i) && BucketOk(hash, chains, order, c);
      SplitElements(hash, if c < i then chains[c] else chains[i][..j], b, |nc|);
      forall x | 0 <= x < |nc[b]|
        ensures nc[b][x] in order && Slot(hash, nc[b][x], |nc|) == b && nc[b][x] != chains[i][j]
      {
        assert nc[b][x] in nc[b];
      }
    }

    /** The next item to move is in no new chain, and no two new chains share an item. */
    lemma MovedApart(nc: seq<seq<Elem>>, i: nat, j: nat, t: nat)
      requires Partition(hash, chains, order) && Moved(nc, i, j)
      requires i < |chains| && j < |chains[i]| && t < |nc|
      ensures forall b, x :: 0 <= b < |nc| && 0 <= x < |nc[b]| ==> nc[b][x] != chains[i][j]
      ensures forall b, x :: 0 <= b < |nc| && b != t && 0 <= x < |nc[b]| ==> nc[t] == [] || nc[b][x] != nc[t][0]
      ensures forall k :: i < k < |chains| ==> chains[i][j] !in chains[k]
    {
      MovedElements(nc, i, j, t);
      forall b | 0 <= b < |nc|
        ensures forall x :: 0 <= x < |nc[b]| ==>
          nc[b][x] != chains[i][j] && (b != t && nc[t] != [] ==> nc[b][x] != nc[t][0])
      {
        MovedElements(nc, i, j, b);
      }
      forall k | i < k < |chains| ensures chains[i][j] !in chains[k] {
        PartitionDisjoint(hash, chains, order, i, k);
      }
    }

    lemma MovedStep(nc: seq<seq<Elem>>, i: nat, j: nat, t: nat)
      requires Partition(hash, chains, order) && Moved(nc, i, j) && |chains| == Pow2(log2NumBuckets)
      requires i < |chains| && j < |chains[i]| && t == BitAnd(hash(chains[i][j].key), 2 * |chains| - 1)
      ensures t < |nc| && Moved(nc[t := [chains[i][j]] + nc[t]], i, j + 1)
    {
      var e := chains[i][j];
      SplitTargets(hash(e.key), log2NumBuckets);
      assert BucketOk(hash, chains, order, i);
      assert Low(t, |chains|) == Slot(hash, e, |chains|) == i && t == Slot(hash, e, |nc|);
      var nc', j' := nc[t := [e] + nc[t]], j + 1;
      forall b | 0 <= b < |nc| ensures MovedAt(nc', i, j', b) {
        MovedOneMore(nc, i, j, t, b);
      }
    }

    lemma MovedOneMore(nc: seq<seq<Elem>>, i: nat, j: nat, t: nat, b: nat)
      requires Moved(nc, i, j) && i < |chains| && j < |chains[i]| && b < |nc|
      requires t < |nc| && t == Slot(hash, chains[i][j], |nc|) && Low(t, |chains|) == i
      ensures MovedAt(nc[t := [chains[i][j]] + nc[t]], i, j + 1, b)
    {
      assert MovedAt(nc, i, j, b);
      SplitOneMore(hash, chains[i], j, b, |nc|);
    }

    lemma MovedBucket(nc: seq<seq<Elem>>, i: nat)
      requires i < |chains| && Moved(nc, i, |chains[i]|)
      ensures Moved(nc, i + 1, 0)
    {
      assert chains[i][..|chains[i]|] == chains[i];
      var i' := i + 1;
      forall b | 0 <= b < |nc| ensures MovedAt(nc, i', 0, b) {
        assert MovedAt(nc, i, |chains[i]|, b);
        if Low(b, |chains|) == i' && i' < |chains| { assert chains[i'][..0] == []; }
      }
    }

    lemma ToMoveNext(i: nat)
      requires Source() && ToMove(i)
      ensures ToMove(i + 1)
    {
      var i' := i + 1;
      forall k | i' <= k < |chains|
        ensures BucketOk(hash, chains, order, k) && NextLinks(chains[k], 0) && buckets[k].hhHead == At(chains[k], 0)
      {
        assert i <= k && BucketOk(hash, chains, order, k);
      }
    }

    /** Move the items of old bucket `i`. */
    method MoveBucket(i: nat, nb: array<Bucket>, ghost nc: seq<seq<Elem>>) returns (ghost nc': seq<seq<Elem>>)
      requires Source() && i < |chains| && ToMove(i)
      requires nb != buckets && Moved(nc, i, 0) && Filling(nb, nc)
      modifies `nonidealItems, nb, order`hhPrev, order`hhNext
      ensures ToMove(i + 1) && Moved(nc', i + 1, 0) && Filling(nb, nc')
    {
      ghost var j := 0;
      nc' := nc;
      assert BucketOk(hash, chains, order, i);
      var thh := buckets[i].hhHead;
      assert thh == At(chains[i], 0);
      ToMoveNext(i);
      while thh != null
        invariant Source() && ToMove(i + 1)
        invariant j <= |chains[i]| && thh == At(chains[i], j)
        invariant Moved(nc', i, j) && NextLinks(chains[i], j)
        invariant Filling(nb, nc')
        decreases |chains[i]| - j
        modifies `nonidealItems, nb, order`hhPrev, order`hhNext
      {
        thh, nc' := MoveOne(thh, i, j, nb, nc');
        j := j + 1;
      }
      MovedBucket(nc', i);
    }

    method MoveOne(thh: Elem, i: nat, ghost j: nat, nb: array<Bucket>, ghost nc: seq<seq<Elem>>)
      returns (nxt: Elem?, ghost nc': seq<seq<Elem>>)
      requires Source() && i < |chains| && j < |chains[i]| && thh == chains[i][j] && ToMove(i + 1)
      requires nb != buckets && Moved(nc, i, j) && NextLinks(chains[i], j) && Filling(nb, nc)
      modifies `nonidealItems, nb, order`hhPrev, order`hhNext
      ensures Source() && ToMove(i + 1)
      ensures nxt == At(chains[i], j + 1) && NextLinks(chains[i], j + 1)
      ensures Moved(nc', i, j + 1) && Filling(nb, nc')
    {
      ghost var chain := chains[i];
      assert BucketOk(hash, chains, order, i);
      nxt := thh.hhNext;
      var t := BitAnd(thh.hashv, numBuckets * 2 - 1);
      MovedStep(nc, i, j, t);
      MovedApart(nc, i, j, t);
      assert FillingAt(nb, nc, t);
      forall k | i < k < |chains| ensures NextLinks(chains[k], 0) && thh !in chains[k] {
        assert BucketOk(hash, chains, order, k);
      }
      MoveItem(thh, t, nb, nc);
      var i' := i + 1;
      forall k | i' <= k < |chains|
        ensures BucketOk(hash, chains, order, k) && NextLinks(chains[k], 0) && buckets[k].hhHead == At(chains[k], 0)
      {
        assert old(BucketOk(hash, chains, order, k)) && old(NextLinks(chains[k], 0));
      }
      forall k | j < k < |chain| ensures chain[k].hhNext == At(chain, k + 1) {
        assert old(chain[k].hhNext) == At(chain, k + 1) && chain[k] != thh;
      }
      nc' := nc[t := [thh] + nc[t]];
    }

    /** Push one item at the front of new bucket `t` and keep the figures up to date. */
    method MoveItem(e: Elem, t: nat, nb: array<Bucket>, ghost nc: seq<seq<Elem>>)
      requires t < |nc| && Filling(nb, nc) && e in order
      requires forall b, x :: 0 <= b < |nc| && 0 <= x < |nc[b]| ==> nc[b][x] != e
      requires forall b, x :: 0 <= b < |nc| && b != t && 0 <= x < |nc[b]| ==> nc[t] == [] || nc[b][x] != nc[t][0]
      modifies `nonidealItems, nb, e`hhNext, e`hhPrev, nc[t]`hhPrev
      ensures Filling(nb, nc[t := [e] + nc[t]])
    {
      ghost var was, nc' := nb[..], nc[t := [e] + nc[t]];
      assert FillingAt(nb, nc, t);
      PushFront(nb, t, e, nc[t]);
      if nb[t].count > idealChainMaxlen {
        nonidealItems := nonidealItems + 1;
        QuotientIsDivision(nb[t].count, idealChainMaxlen);
        nb[t] := nb[t].(expandMult := nb[t].count / idealChainMaxlen);
      }
      ExcessUpdate(nc, idealChainMaxlen, t, [e] + nc[t]);
      forall b | 0 <= b < |nc| ensures FillingAt(nb, nc', b) {
        assert old(FillingAt(nb, nc, b));
        if b != t { assert nb[b] == was[b]; }
      }
    }
  }

  /** Link `e` in at the head of bucket `b`, whose chain is `chain`. */
  method PushFront(bkts: array<Bucket>, b: nat, e: Elem, ghost chain: seq<Elem>)
    requires b < bkts.Length && Chain(chain, bkts[b]) && e !in chain
    modifies bkts, e`hhNext, e`hhPrev, chain[..if chain == [] then 0 else 1]`hhPrev
    ensures Chain([e] + chain, bkts[b]) && bkts[b].expandMult == old(bkts[b].expandMult)
    ensures forall k :: 0 <= k < bkts.Length && k != b ==> bkts[k] == old(bkts[k])
  {
    var bkt := bkts[b];
    ghost var c := [e] + chain;
    e.hhNext := bkt.hhHead;
    e.hhPrev := null;
    if bkt.hhHead != null {
      bkt.hhHead.hhPrev := e;
    }
    bkts[b] := Bucket(e, bkt.count + 1, bkt.expandMult);
    forall k | 1 <= k < |c| ensures c[k].hhPrev == At(c, k - 1) && c[k].hhNext == At(c, k + 1) {
      assert c[k] == chain[k - 1];
      assert old(chain[k - 1].hhPrev) == At(chain, k - 2) && old(chain[k - 1].hhNext) == At(chain, k);
    }
  }

  lemma RemoveAtDistinct(s: seq<Elem>, i: nat)
    requires i < |s| && Distinct(s)
    ensures Distinct(RemoveAt(s, i)) && s[i] !in RemoveAt(s, i)
  {
  }

  /** Unlink position `i` of an application-order list. */
  method ListDelete(del: Elem, ghost s: seq<Elem>, ghost i: nat)
    requires i < |s| && s[i] == del && AppLinks(s) && Distinct(s)
    modifies s`prev, s`next
    ensures AppLinks(RemoveAt(s, i))
  {
    ghost var c := RemoveAt(s, i);
    if del.prev != null {
      del.prev.next := del.next;
    }
    if del.next != null {
      del.next.prev := del.prev;
    }
    forall k | 0 <= k < |c| ensures c[k].prev == At(c, k - 1) && c[k].next == At(c, k + 1) {
      var o := if k < i then k else k + 1;
      assert c[k] == s[o];
      assert old(s[o].prev) == At(s, o - 1) && old(s[o].next) == At(s, o + 1);
    }
  }

  /** Unlink position `j` of the chain of bucket `b`. */
  method ChainDelete(bkts: array<Bucket>, b: nat, del: Elem, ghost chain: seq<Elem>, ghost j: nat)
    requires b < bkts.Length && Chain(chain, bkts[b]) && Distinct(chain)
    requires j < |chain| && chain[j] == del
    modifies bkts, chain`hhPrev, chain`hhNext
    ensures Chain(RemoveAt(chain, j), bkts[b]) && bkts[b].expandMult == old(bkts[b].expandMult)
    ensures forall k :: 0 <= k < bkts.Length && k != b ==> bkts[k] == old(bkts[k])
  {
    ghost var c := RemoveAt(chain, j);
    bkts[b] := bkts[b].(count := bkts[b].count - 1);
    if bkts[b].hhHead == del {
      bkts[b] := bkts[b].(hhHead := del.hhNext);
    }
    if del.hhPrev != null {
      del.hhPrev.hhNext := del.hhNext;
    }
    if del.hhNext != null {
      del.hhNext.hhPrev := del.hhPrev;
    }
    forall k | 0 <= k < |c| ensures c[k].hhPrev == At(c, k - 1) && c[k].hhNext == At(c, k + 1) {
      var o := if k < j then k else k + 1;
      assert c[k] == chain[o];
      assert old(chain[o].hhPrev) == At(chain, o - 1) && old(chain[o].hhNext) == At(chain, o + 1);
    }
  }
}
