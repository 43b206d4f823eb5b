/** Sequences without repetitions, and what is left when an element is dropped. */
module Sequences {

  lemma Reassociate<T>(a: seq<T>, b: seq<T>, c: seq<T>)
    ensures a + (b + c) == (a + b) + c
  {
  }

  predicate NoRepeats<T(==)>(s: seq<T>)
  {
    s == [] || (s[|s| - 1] !in s[..|s| - 1] && NoRepeats(s[..|s| - 1]))
  }

  lemma {:induction false} NoRepeatsAt<T>(s: seq<T>, i: nat, j: nat)
    requires NoRepeats(s) && i < |s| && j < |s| && i != j
    ensures s[i] != s[j]
  {
    if i < |s| - 1 && j < |s| - 1 {
      NoRepeatsAt(s[..|s| - 1], i, j);
    }
  }

  lemma {:induction false} NoRepeatsIf<T>(s: seq<T>)
    requires forall i, j :: 0 <= i < j < |s| ==> s[i] != s[j]
    ensures NoRepeats(s)
  {
    if s != [] {
      NoRepeatsIf(s[..|s| - 1]);
    }
  }

  lemma NoRepeatsAppend<T>(s: seq<T>, x: T)
    requires NoRepeats(s) && x !in s
    ensures NoRepeats(s + [x])
  {
    assert (s + [x])[..|s|] == s;
  }

  lemma PrefixHasNoRepeats<T>(s: seq<T>, k: nat)
    requires NoRepeats(s) && k <= |s|
    ensures NoRepeats(s[..k])
  {
    forall i, j | 0 <= i < j < k ensures s[i] != s[j] {
      NoRepeatsAt(s, i, j);
    }
    NoRepeatsIf(s[..k]);
  }

  lemma {:induction false} NoRepeatsCount<T>(s: seq<T>, xs: set<T>)
    requires NoRepeats(s) && forall x :: x in s <==> x in xs
    ensures |xs| == |s|
  {
    if s != [] {
      NoRepeatsCount(s[..|s| - 1], xs - {s[|s| - 1]});
    } else {
      assert xs == {};
    }
  }

  /** s without the element at position i. */
  function Removed<T>(s: seq<T>, i: nat): (r: seq<T>)
    requires i < |s|
    ensures |r| == |s| - 1 && forall k :: 0 <= k < |r| ==> r[k] == s[if k < i then k else k + 1]
  {
    s[..i] + s[i + 1..]
  }

  lemma RemovedElements<T>(s: seq<T>, i: nat)
    requires NoRepeats(s) && i < |s|
    ensures forall x :: x in Removed(s, i) <==> x in s && x != s[i]
  {
    forall x | x in s && x != s[i] ensures x in Removed(s, i) {
      var k :| 0 <= k < |s| && s[k] == x;
      IsKept(s, i, k);
    }
    forall x | x in Removed(s, i) ensures x in s && x != s[i] {
      IsNotRemoved(s, i, x);
    }
  }

  lemma IsKept<T>(s: seq<T>, i: nat, k: nat)
    requires i < |s| && k < |s| && k != i
    ensures s[k] in Removed(s, i)
  {
    var r, j := Removed(s, i), if k < i then k else k - 1;
    assert r[j] == s[k];
  }

  lemma IsNotRemoved<T>(s: seq<T>, i: nat, x: T)
    requires NoRepeats(s) && i < |s| && x in Removed(s, i)
    ensures x in s && x != s[i]
  {
    var k :| 0 <= k < |s| - 1 && Removed(s, i)[k] == x;
    NoRepeatsAt(s, if k < i then k else k + 1, i);
  }

  lemma RemovedHasNoRepeats<T>(s: seq<T>, k: nat)
    requires NoRepeats(s) && k < |s|
    ensures NoRepeats(Removed(s, k))
  {
    var r := Removed(s, k);
    forall i, j | 0 <= i < j < |r| ensures r[i] != r[j] {
      NoRepeatsAt(s, if i < k then i else i + 1, if j < k then j else j + 1);
    }
    NoRepeatsIf(r);
  }

  /** s without x. */
  function Dropped<T(==)>(s: seq<T>, x: T): (r: seq<T>)
    ensures forall y :: y in r ==> y in s && y != x
  {
    if s == [] then []
    else if s[|s| - 1] == x then Dropped(s[..|s| - 1], x)
    else Dropped(s[..|s| - 1], x) + [s[|s| - 1]]
  }

  lemma {:induction false} DroppedElements<T>(s: seq<T>, x: T)
    requires NoRepeats(s)
    ensures NoRepeats(Dropped(s, x))
    ensures forall y :: y in Dropped(s, x) <==> y in s && y != x
  {
    if s != [] {
      var n := |s| - 1;
      DroppedElements(s[..n], x);
      if s[n] != x {
        NoRepeatsAppend(Dropped(s[..n], x), s[n]);
      }
    }
  }
}
