/** How the size of a set of threads changes when one of them moves. */
module Counting {

  function One(b: bool): nat
  {
    if b then 1 else 0
  }

  lemma WithoutOne<T>(s: set<T>, t: T)
    ensures |s - {t}| == |s| - One(t in s)
  {
    if t in s {
      assert s == (s - {t}) + {t};
    } else {
      assert s - {t} == s;
    }
  }

  /** Only t may come or go. */
  lemma OneMoves<T>(before: set<T>, after: set<T>, t: T)
    requires after - {t} == before - {t}
    ensures |after| == |before| - One(t in before) + One(t in after)
    ensures |before| >= One(t in before)
  {
    WithoutOne(before, t);
    WithoutOne(after, t);
  }

  lemma TwoMembers<T>(s: set<T>, t: T, u: T)
    requires t != u
    ensures |s| >= One(t in s) + One(u in s)
  {
    WithoutOne(s, t);
    WithoutOne(s - {t}, u);
  }
}
