/**
  The list of decoder objects and its two indexes (struct JVD of libharvid/decoder_ctrl.c):
  testjvd, clearjvo, newjvo, getjvo, new_video_object and dctrl_get_decoder as whole
  operations, one after the other.  What can happen between their locked regions is the
  subject of module DecoderPool, and the update of one object in place that of module PoolObject.

  `next` holds the next pointers, `list` the addresses of the objects in their order, and
  `objs` what is at those addresses.
  */
module DecoderList {
  import opened Wrappers
  import opened Sequences
  import opened DecoderObject
  import NearestDecoder

  type Oid = nat

  /** The flags of an object at rest, when no operation is under way. */
  predicate AtRest(j: Jvo)
  {
    && !j.pending
    && (j.used || j.info ==> j.open)
    && (j.open ==> j.valid && j.fmt != NO_FMT)
    && (j.open <==> j.decoder.Some?)
    && (j.valid ==> j.id > 0)
    && j.refcnt >= 0 && (j.info <==> j.refcnt > 0)
  }

  /** The arguments of clearjvo; `root` is the head of the list. */
  datatype Purge = Purge(f: nat, id: int, age: int, now: int, root: Oid)

  /** What clearjvo does with an object: pass it over, leave it because it is busy, free it, or clear it. */
  datatype Fate = Skip | StayBusy | Free | Clear

  function FateOf(p: Purge, o: Oid, j: Jvo): Fate
  {
    if (p.id > 0 && j.id != p.id) || (p.age > 0 && j.lru + p.age > p.now) then Skip
    else if Busy(j) then StayBusy
    else if p.f > 1 && o != p.root then Free
    else Clear
  }

  function AfterFate(p: Purge, o: Oid, j: Jvo): Jvo
  {
    if FateOf(p, o, j) == Clear then Cleared(j, p.f) else j
  }

  /** The list without the freed objects. */
  function Survivors(p: Purge, list: seq<Oid>, objs: map<Oid, Jvo>): (r: seq<Oid>)
    ensures |r| <= |list|
  {
    if list == [] then []
    else
      var o, front := list[|list| - 1], Survivors(p, list[..|list| - 1], objs);
      if o in objs && FateOf(p, o, objs[o]) == Free then front else front + [o]
  }

  function SurvivingObjects(p: Purge, objs: map<Oid, Jvo>): map<Oid, Jvo>
  {
    map o | o in objs && FateOf(p, o, objs[o]) != Free :: AfterFate(p, o, objs[o])
  }

  /** An index without the freed and the cleared objects. */
  function SurvivingIndex<K>(p: Purge, index: map<K, Oid>, objs: map<Oid, Jvo>): map<K, Oid>
  {
    map k | k in index && !(index[k] in objs && (FateOf(p, index[k], objs[index[k]]).Free? || FateOf(p, index[k], objs[index[k]]).Clear?)) :: index[k]
  }

  predicate Freed(p: Purge, o: Oid, objs: map<Oid, Jvo>)
  {
    o in objs && FateOf(p, o, objs[o]) == Free
  }

  /** Where the sweep stands in the list once the first i of its objects have been visited. */
  function Position(p: Purge, list: seq<Oid>, objs: map<Oid, Jvo>, i: nat): nat
    requires i <= |list|
  {
    if i == 0 then 0
    else Position(p, list, objs, i - 1) + if Freed(p, list[i - 1], objs) then 0 else 1
  }

  /** What the list has become then. */
  function Visited(p: Purge, list: seq<Oid>, objs: map<Oid, Jvo>, i: nat): seq<Oid>
    requires i <= |list|
  {
    if i == 0 then list
    else
      var cur, k := Visited(p, list, objs, i - 1), Position(p, list, objs, i - 1);
      if Freed(p, list[i - 1], objs) && k < |cur| then cur[..k] + cur[k + 1..] else cur
  }

  lemma {:induction false} VisitedIs(p: Purge, list: seq<Oid>, objs: map<Oid, Jvo>, i: nat)
    requires i <= |list|
    ensures Visited(p, list, objs, i) == Survivors(p, list[..i], objs) + list[i..]
    ensures Position(p, list, objs, i) == |Survivors(p, list[..i], objs)|
  {
    if i > 0 {
      VisitedIs(p, list, objs, i - 1);
      assert list[..i][..i - 1] == list[..i - 1];
    }
  }

  /** What the list has become, and where the sweep stands in it; named so that the solver looks at that only where it is named. */
  ghost predicate Stands(p: Purge, was: seq<Oid>, objs: map<Oid, Jvo>, i: nat, cur: seq<Oid>, pos: nat)
  {
    forall n: nat {:trigger StandsAt(p, was, objs, n, cur, pos)} :: n == i ==> StandsAt(p, was, objs, n, cur, pos)
  }

  predicate StandsAt(p: Purge, was: seq<Oid>, objs: map<Oid, Jvo>, i: nat, cur: seq<Oid>, pos: nat)
  {
    i <= |was| && cur == Visited(p, was, objs, i) && pos == Position(p, was, objs, i)
  }

  lemma VisitedNext(p: Purge, list: seq<Oid>, objs: map<Oid, Jvo>, i: nat, cur: seq<Oid>, k: nat)
    requires i < |list| && cur == Visited(p, list, objs, i) && k == Position(p, list, objs, i) < |cur|
    ensures Visited(p, list, objs, i + 1) == if Freed(p, list[i], objs) then cur[..k] + cur[k + 1..] else cur
    ensures Position(p, list, objs, i + 1) == if Freed(p, list[i], objs) then k else k + 1
  {
  }

  lemma StandsNext(p: Purge, was: seq<Oid>, objs: map<Oid, Jvo>, i: nat, cur: seq<Oid>, pos: nat)
    requires i < |was| && pos < |cur| && Stands(p, was, objs, i, cur, pos)
    ensures if Freed(p, was[i], objs) then Stands(p, was, objs, i + 1, Removed(cur, pos), pos) else Stands(p, was, objs, i + 1, cur, pos + 1)
  {
    assert StandsAt(p, was, objs, i, cur, pos);
    VisitedNext(p, was, objs, i, cur, pos);
  }

  lemma VisitedAt(p: Purge, list: seq<Oid>, objs: map<Oid, Jvo>, i: nat)
    requires i < |list|
    ensures var k := Position(p, list, objs, i);
      k < |Visited(p, list, objs, i)| && Visited(p, list, objs, i)[k] == list[i]
  {
    VisitedIs(p, list, objs, i);
  }

  lemma VisitedAll(p: Purge, list: seq<Oid>, objs: map<Oid, Jvo>, i: nat)
    requires i <= |list|
    ensures |Visited(p, list, objs, i)| == Position(p, list, objs, i) + |list| - i
    ensures i == |list| ==> Visited(p, list, objs, i) == Survivors(p, list, objs)
  {
    VisitedIs(p, list, objs, i);
    assert list[..|list|] == list;
  }

  /** Clearing frees nobody but what it is meant to, keeps the order, and always keeps the root. */
  lemma {:induction false} SurvivorsAre(p: Purge, list: seq<Oid>, objs: map<Oid, Jvo>)
    requires NoRepeats(list) && forall o :: o in list ==> o in objs
    ensures NoRepeats(Survivors(p, list, objs))
    ensures forall o :: o in Survivors(p, list, objs) <==> o in list && FateOf(p, o, objs[o]) != Free
    ensures list != [] && list[0] == p.root ==> Survivors(p, list, objs) != [] && Survivors(p, list, objs)[0] == p.root
  {
    if list != [] {
      var n := |list| - 1;
      var front := Survivors(p, list[..n], objs);
      SurvivorsAre(p, list[..n], objs);
      assert Survivors(p, list, objs)[..|front|] == front;
      assert forall o :: o in list <==> o in list[..n] || o == list[n];
    }
  }

  // ---------------------------------------------------------------------------------
  // The next pointers

  /** The objects at the addresses in `list` point to each other in this order, and nobody else points anywhere. */
  ghost predicate Linked(list: seq<Oid>, next: map<Oid, Option<Oid>>)
  {
    && (forall o {:trigger o in next} :: o in next ==> o in list)
    && (forall i {:trigger LinkAt(list, next, i)} :: LinkAt(list, next, i))
  }

  predicate LinkAt(list: seq<Oid>, next: map<Oid, Option<Oid>>, i: nat)
  {
    i < |list| ==> list[i] in next && next[list[i]] == ElementAt(list, i + 1)
  }

  function ElementAt(list: seq<Oid>, i: nat): Option<Oid>
  {
    if i < |list| then Some(list[i]) else None
  }

  /** prev in clearjvo: the element before position pos, or the first one. */
  predicate Precedes(list: seq<Oid>, prev: Oid, pos: nat)
  {
    list != [] && pos <= |list| && prev == list[if pos == 0 then 0 else pos - 1]
  }

  /** prev->next = cptr, and the object at position i is freed. */
  lemma UnlinkKeepsLinks(list: seq<Oid>, next: map<Oid, Option<Oid>>, i: nat)
    requires NoRepeats(list) && Linked(list, next) && 0 < i < |list|
    ensures Linked(Removed(list, i), next[list[i - 1] := ElementAt(list, i + 1)] - {list[i]})
  {
    var mem, list', next' := list[i], Removed(list, i), next[list[i - 1] := ElementAt(list, i + 1)] - {list[i]};
    forall k: nat ensures LinkAt(list', next', k) {
      if k < |list'| {
        UnlinkedAt(list, next, i, k);
      }
    }
    RemovedElements(list, i);
  }

  lemma UnlinkedAt(list: seq<Oid>, next: map<Oid, Option<Oid>>, i: nat, k: nat)
    requires NoRepeats(list) && Linked(list, next) && 0 < i < |list| && k < |list| - 1
    ensures LinkAt(Removed(list, i), next[list[i - 1] := ElementAt(list, i + 1)] - {list[i]}, k)
  {
    var was := if k < i then k else k + 1;
    assert LinkAt(list, next, was);
    NoRepeatsAt(list, was, i);
    if was != i - 1 { NoRepeatsAt(list, was, i - 1); }
  }

  lemma AppendKeepsLinks(list: seq<Oid>, next: map<Oid, Option<Oid>>, o: Oid)
    requires NoRepeats(list) && Linked(list, next) && list != [] && o !in list
    ensures Linked(list + [o], next[list[|list| - 1] := Some(o)][o := None])
  {
    var n, list', next' := |list|, list + [o], next[list[|list| - 1] := Some(o)][o := None];
    forall k: nat ensures LinkAt(list', next', k) {
      if k < n {
        assert LinkAt(list, next, k);
        if k < n - 1 { NoRepeatsAt(list, k, n - 1); }
      }
    }
  }

  // ---------------------------------------------------------------------------------
  // The indexes

  predicate In<K(!new)>(index: map<K, Oid>, k: K, o: Oid)
  {
    k in index && index[k] == o
  }

  /** The root as dctrl_create leaves it. */
  predicate NewRoot(root: Oid, o: Oid, j: Jvo)
  {
    o == root && j == NEW_JVO
  }

  /**
    Both indexes hold the same objects, each under its current id and format, and so at most
    one per id; every one of them is valid, except a root that was never used.
    */
  ghost predicate IndexOk(root: Oid, objs: map<Oid, Jvo>, jvi: map<nat, Oid>, jvf: map<(nat, int), Oid>)
  {
    && (forall k {:trigger ById(root, objs, jvi, k)} :: ById(root, objs, jvi, k))
    && (forall k {:trigger ByFormat(objs, jvf, k)} :: ByFormat(objs, jvf, k))
    && (forall o {:trigger BothOrNeither(objs, jvi, jvf, o)} :: BothOrNeither(objs, jvi, jvf, o))
  }

  predicate ById(root: Oid, objs: map<Oid, Jvo>, jvi: map<nat, Oid>, k: nat)
  {
    k in jvi ==> jvi[k] in objs && objs[jvi[k]].id == k && (objs[jvi[k]].valid || NewRoot(root, jvi[k], objs[jvi[k]]))
  }

  predicate ByFormat(objs: map<Oid, Jvo>, jvf: map<(nat, int), Oid>, k: (nat, int))
  {
    k in jvf ==> jvf[k] in objs && objs[jvf[k]].id == k.0 && objs[jvf[k]].fmt == k.1
  }

  predicate BothOrNeither(objs: map<Oid, Jvo>, jvi: map<nat, Oid>, jvf: map<(nat, int), Oid>, o: Oid)
  {
    o in objs ==> (In(jvi, objs[o].id, o) <==> In(jvf, (objs[o].id, objs[o].fmt), o))
  }

  /** An indexed object that is closed is one whose file could not be opened. */
  ghost predicate Settled(root: Oid, objs: map<Oid, Jvo>, jvi: map<nat, Oid>, failed: set<nat>)
  {
    forall k {:trigger SettledAt(root, objs, jvi, failed, k)} :: SettledAt(root, objs, jvi, failed, k)
  }

  predicate SettledAt(root: Oid, objs: map<Oid, Jvo>, jvi: map<nat, Oid>, failed: set<nat>, k: nat)
  {
    k in jvi && jvi[k] in objs ==> objs[jvi[k]].open || NewRoot(root, jvi[k], objs[jvi[k]]) || k in failed
  }

  function Deleted<K>(index: map<K, Oid>, o: Oid): map<K, Oid>
  {
    map k | k in index && index[k] != o :: index[k]
  }

  lemma DeleteKeepsIndex(root: Oid, objs: map<Oid, Jvo>, jvi: map<nat, Oid>, jvf: map<(nat, int), Oid>, o: Oid)
    requires IndexOk(root, objs, jvi, jvf)
    ensures IndexOk(root, objs, Deleted(jvi, o), Deleted(jvf, o))
  {
    forall k ensures ById(root, objs, Deleted(jvi, o), k) {
      assert ById(root, objs, jvi, k);
    }
    forall k ensures ByFormat(objs, Deleted(jvf, o), k) {
      assert ByFormat(objs, jvf, k);
    }
    forall x ensures BothOrNeither(objs, Deleted(jvi, o), Deleted(jvf, o), x) {
      assert BothOrNeither(objs, jvi, jvf, x);
    }
  }

  /** An object that is not in the indexes may be changed or freed. */
  lemma ChangeKeepsIndex(root: Oid, objs: map<Oid, Jvo>, jvi: map<nat, Oid>, jvf: map<(nat, int), Oid>, o: Oid, j: Jvo)
    requires IndexOk(root, objs, jvi, jvf)
    requires (forall k :: k in jvi ==> jvi[k] != o) && (forall k :: k in jvf ==> jvf[k] != o)
    ensures IndexOk(root, objs[o := j], jvi, jvf) && IndexOk(root, objs - {o}, jvi, jvf)
  {
    AloneKeepsIndex(root, objs, jvi, jvf, o, objs[o := j]);
    AloneKeepsIndex(root, objs, jvi, jvf, o, objs - {o});
  }

  lemma AloneKeepsIndex(root: Oid, objs: map<Oid, Jvo>, jvi: map<nat, Oid>, jvf: map<(nat, int), Oid>, o: Oid, objs': map<Oid, Jvo>)
    requires IndexOk(root, objs, jvi, jvf)
    requires (forall k :: k in jvi ==> jvi[k] != o) && (forall k :: k in jvf ==> jvf[k] != o)
    requires forall x :: x != o ==> (x in objs <==> x in objs') && (x in objs ==> objs'[x] == objs[x])
    ensures IndexOk(root, objs', jvi, jvf)
  {
    forall k ensures ById(root, objs', jvi, k) {
      assert ById(root, objs, jvi, k);
    }
    forall k ensures ByFormat(objs', jvf, k) {
      assert ByFormat(objs, jvf, k);
    }
    forall x ensures BothOrNeither(objs', jvi, jvf, x) {
      assert BothOrNeither(objs, jvi, jvf, x);
    }
  }

  /** The sweep as a whole keeps the indexes consistent. */
  lemma SweepKeepsIndex(p: Purge, objs: map<Oid, Jvo>, jvi: map<nat, Oid>, jvf: map<(nat, int), Oid>)
    requires IndexOk(p.root, objs, jvi, jvf)
    ensures IndexOk(p.root, SurvivingObjects(p, objs), SurvivingIndex(p, jvi, objs), SurvivingIndex(p, jvf, objs))
  {
    var objs', jvi', jvf' := SurvivingObjects(p, objs), SurvivingIndex(p, jvi, objs), SurvivingIndex(p, jvf, objs);
    forall k ensures ById(p.root, objs', jvi', k) {
      assert ById(p.root, objs, jvi, k);
    }
    forall k ensures ByFormat(objs', jvf', k) {
      assert ByFormat(objs, jvf, k);
    }
    forall o ensures BothOrNeither(objs', jvi', jvf', o) {
      if o in objs' {
        SweepKeepsPair(p, objs, jvi, jvf, o);
      }
    }
  }

  lemma SweepKeepsPair(p: Purge, objs: map<Oid, Jvo>, jvi: map<nat, Oid>, jvf: map<(nat, int), Oid>, o: Oid)
    requires IndexOk(p.root, objs, jvi, jvf) && o in SurvivingObjects(p, objs)
    ensures BothOrNeither(SurvivingObjects(p, objs), SurvivingIndex(p, jvi, objs), SurvivingIndex(p, jvf, objs), o)
  {
    var j, j' := objs[o], SurvivingObjects(p, objs)[o];
    assert BothOrNeither(objs, jvi, jvf, o);
    if FateOf(p, o, j) == Clear {
      assert !In(SurvivingIndex(p, jvi, objs), j'.id, o);
      assert !In(SurvivingIndex(p, jvf, objs), (j'.id, j'.fmt), o);
    } else {
      assert j' == j;
      assert In(jvi, j.id, o) <==> In(SurvivingIndex(p, jvi, objs), j.id, o);
      assert In(jvf, (j.id, j.fmt), o) <==> In(SurvivingIndex(p, jvf, objs), (j.id, j.fmt), o);
    }
  }

  /**
    What clearjvo promises about one object.  If it is filtered out by its id, or was used less
    than `age` seconds ago, or is busy, it stays as it is, with its index entries.  Otherwise it
    leaves the indexes: modes 2 and 3 free it, except the root; mode 0 only closes it, and what
    else is left has no flags and no file.
    */
  ghost predicate SweptObject(f: nat, id: int, age: int, now: int, root: Oid, o: Oid,
                              objs: map<Oid, Jvo>, jvi: map<nat, Oid>, jvf: map<(nat, int), Oid>,
                              objs': map<Oid, Jvo>, jvi': map<nat, Oid>, jvf': map<(nat, int), Oid>)
  {
    o in objs ==>
      var j := objs[o];
      if (id > 0 && j.id != id) || (age > 0 && j.lru + age > now) || j.used || j.pending || j.info then
        && o in objs' && objs'[o] == j
        && (forall k :: (k in jvi && jvi[k] == o) <==> (k in jvi' && jvi'[k] == o))
        && (forall k :: (k in jvf && jvf[k] == o) <==> (k in jvf' && jvf'[k] == o))
      else
        && (forall k :: k in jvi' ==> jvi'[k] != o) && (forall k :: k in jvf' ==> jvf'[k] != o)
        && if f >= 2 && o != root then o !in objs'
           else
             && o in objs' && !objs'[o].open && objs'[o].decoder == None
             && if f == 0 then objs'[o] == j.(open := false, decoder := None, fmt := if j.open then -1 else j.fmt)
                else
                  && !objs'[o].used && !objs'[o].valid && !objs'[o].pending && !objs'[o].info
                  && objs'[o].id == 0 && objs'[o].lru == 0 && objs'[o].frame == -1
  }

  lemma SweepIs(p: Purge, objs: map<Oid, Jvo>, jvi: map<nat, Oid>, jvf: map<(nat, int), Oid>, o: Oid)
    requires Rests(objs, o)
    ensures SweptObject(p.f, p.id, p.age, p.now, p.root, o, objs, jvi, jvf,
                        SurvivingObjects(p, objs), SurvivingIndex(p, jvi, objs), SurvivingIndex(p, jvf, objs))
  {
  }

  /** Does the request (id, fmt) accept this object, and is it free? */
  predicate Candidate(j: Jvo, id: nat, fmt: int)
  {
    && j.valid && j.id == id
    && (fmt == NO_FMT || j.fmt == fmt || j.fmt == NO_FMT)
    && !Busy(j)
  }

  function Without<K>(index: map<K, Oid>, gone: set<Oid>): map<K, Oid>
  {
    map k | k in index && index[k] !in gone :: index[k]
  }

  /** The list has every object once, and every object is at rest. */
  ghost predicate ListOk(list: seq<Oid>, objs: map<Oid, Jvo>)
  {
    && list != [] && NoRepeats(list)
    && (forall o :: o in list <==> o in objs)
    && (forall o {:trigger Rests(objs, o)} :: Rests(objs, o))
  }

  predicate Rests(objs: map<Oid, Jvo>, o: Oid)
  {
    o in objs ==> AtRest(objs[o])
  }

  lemma SweepKeepsList(p: Purge, list: seq<Oid>, objs: map<Oid, Jvo>)
    requires ListOk(list, objs) && list[0] == p.root
    ensures ListOk(Survivors(p, list, objs), SurvivingObjects(p, objs)) && Survivors(p, list, objs)[0] == p.root
  {
    SurvivorsAre(p, list, objs);
    forall o ensures Rests(SurvivingObjects(p, objs), o) {
      assert Rests(objs, o);
    }
  }

  lemma SweepKeepsSettled(p: Purge, objs: map<Oid, Jvo>, jvi: map<nat, Oid>, failed: set<nat>)
    requires Settled(p.root, objs, jvi, failed)
    ensures Settled(p.root, SurvivingObjects(p, objs), SurvivingIndex(p, jvi, objs), failed)
  {
    forall k ensures SettledAt(p.root, SurvivingObjects(p, objs), SurvivingIndex(p, jvi, objs), failed, k) {
      assert SettledAt(p.root, objs, jvi, failed, k);
    }
  }

  lemma WithoutOneMore<K>(index: map<K, Oid>, gone: set<Oid>, o: Oid)
    ensures Deleted(Without(index, gone), o) == Without(index, gone + {o})
    ensures Without(index, {}) == index
  {
  }

  predicate Done(p: Purge, o: Oid, j: Jvo, objs: map<Oid, Jvo>, gone: set<Oid>)
  {
    && (o in gone <==> FateOf(p, o, j).Free? || FateOf(p, o, j).Clear?)
    && (o in objs <==> !FateOf(p, o, j).Free?)
    && (o in objs ==> objs[o] == AfterFate(p, o, j))
  }

  predicate Untouched(o: Oid, j: Jvo, objs: map<Oid, Jvo>, gone: set<Oid>)
  {
    o in objs && objs[o] == j && o !in gone
  }

  /** How far a run of clearjvo has come, that started with the list `was` of the objects `objs0`. */
  ghost predicate Progress(p: Purge, was: seq<Oid>, objs0: map<Oid, Jvo>, objs: map<Oid, Jvo>, gone: set<Oid>, i: nat)
    requires i <= |was| && forall o :: o in was ==> o in objs0
  {
    && (forall o :: o in objs ==> o in objs0)
    && (forall j {:trigger Done(p, was[j], objs0[was[j]], objs, gone)} :: 0 <= j < i ==> Done(p, was[j], objs0[was[j]], objs, gone))
    && (forall j {:trigger Untouched(was[j], objs0[was[j]], objs, gone)} :: i <= j < |was| ==> Untouched(was[j], objs0[was[j]], objs, gone))
  }

  lemma ProgressStep(p: Purge, was: seq<Oid>, objs0: map<Oid, Jvo>, objs: map<Oid, Jvo>, gone: set<Oid>, i: nat, objs': map<Oid, Jvo>, gone': set<Oid>)
    requires i < |was| && NoRepeats(was) && (forall o :: o in was ==> o in objs0) && Progress(p, was, objs0, objs, gone, i)
    requires forall o :: o in objs' ==> o in objs
    requires forall o :: o != was[i] ==> (o in objs ==> o in objs' && objs'[o] == objs[o]) && (o in gone' <==> o in gone)
    requires Done(p, was[i], objs0[was[i]], objs', gone')
    ensures Progress(p, was, objs0, objs', gone', i + 1)
  {
    forall j | 0 <= j < i ensures Done(p, was[j], objs0[was[j]], objs', gone') {
      NoRepeatsAt(was, j, i);
      assert Done(p, was[j], objs0[was[j]], objs, gone);
    }
    forall j | i < j < |was| ensures Untouched(was[j], objs0[was[j]], objs', gone') {
      NoRepeatsAt(was, i, j);
      assert Untouched(was[j], objs0[was[j]], objs, gone);
    }
  }

  lemma ProgressEnd(p: Purge, was: seq<Oid>, objs0: map<Oid, Jvo>, objs: map<Oid, Jvo>, gone: set<Oid>, jvi: map<nat, Oid>, jvf: map<(nat, int), Oid>)
    requires (forall o :: o in was <==> o in objs0) && Progress(p, was, objs0, objs, gone, |was|) && IndexOk(p.root, objs0, jvi, jvf)
    ensures objs == SurvivingObjects(p, objs0)
    ensures Without(jvi, gone) == SurvivingIndex(p, jvi, objs0) && Without(jvf, gone) == SurvivingIndex(p, jvf, objs0)
  {
    assert forall k :: ById(p.root, objs0, jvi, k) ==> k in jvi ==> jvi[k] in objs0;
    assert forall k :: ByFormat(objs0, jvf, k) ==> k in jvf ==> jvf[k] in objs0;
    forall o | o in objs0
      ensures o in gone <==> FateOf(p, o, objs0[o]).Free? || FateOf(p, o, objs0[o]).Clear?
      ensures o in objs <==> o in SurvivingObjects(p, objs0)
      ensures o in objs ==> objs[o] == SurvivingObjects(p, objs0)[o]
    {
      var j :| 0 <= j < |was| && was[j] == o;
      assert Done(p, was[j], objs0[was[j]], objs, gone);
    }
  }

  /** The open decoders that will do for a request, in the order of the list, and what is at those addresses. */
  function OpenCandidates(list: seq<Oid>, objs: map<Oid, Jvo>, id: nat, fmt: int): (r: seq<Oid>)
    ensures forall o :: o in r <==> o in list && o in objs && Candidate(objs[o], id, fmt) && objs[o].open
  {
    if list == [] then []
    else
      var o, front := list[|list| - 1], OpenCandidates(list[..|list| - 1], objs, id, fmt);
      if o in objs && Candidate(objs[o], id, fmt) && objs[o].open then front + [o] else front
  }

  function At(os: seq<Oid>, objs: map<Oid, Jvo>): (r: seq<Jvo>)
    requires forall o :: o in os ==> o in objs
    ensures |r| == |os| && forall i :: 0 <= i < |os| ==> r[i] == objs[os[i]]
  {
    if os == [] then [] else At(os[..|os| - 1], objs) + [objs[os[|os| - 1]]]
  }

  /** dec_open, lru_open and framediff */
  datatype Found = Found(open: Option<Oid>, lru: int, diff: int)

  /** What testjvd has found among the open decoders when it has seen part of the list. */
  function FoundIn(seen: seq<Oid>, objs: map<Oid, Jvo>, id: nat, fmt: int, frame: int, now: int): Found
  {
    var os := OpenCandidates(seen, objs, id, fmt);
    AsFound(os, NearestDecoder.BestOf(At(os, objs), frame, now))
  }

  /** One more open decoder. */
  function Considered(f: Found, o: Oid, j: Jvo, frame: int): Found
  {
    var fd := frame - j.frame;
    if f.diff < 0 || (fd >= 0 && fd == f.diff) then
      if j.lru < f.lru then Found(Some(o), j.lru, if fd > 0 then fd else f.diff) else f
    else if 0 <= fd < f.diff then Found(Some(o), j.lru, fd)
    else f
  }

  lemma OpenOne(seen: seq<Oid>, o: Oid, objs: map<Oid, Jvo>, id: nat, fmt: int)
    requires o in objs
    ensures OpenCandidates(seen + [o], objs, id, fmt) ==
      OpenCandidates(seen, objs, id, fmt) + if Candidate(objs[o], id, fmt) && objs[o].open then [o] else []
  {
    assert (seen + [o])[..|seen|] == seen;
  }

  lemma AtOne(os: seq<Oid>, o: Oid, objs: map<Oid, Jvo>)
    requires o in objs && forall p :: p in os ==> p in objs
    ensures At(os + [o], objs) == At(os, objs) + [objs[o]]
  {
    assert (os + [o])[..|os|] == os;
  }

  lemma FoundStep(seen: seq<Oid>, o: Oid, objs: map<Oid, Jvo>, id: nat, fmt: int, frame: int, now: int)
    requires o in objs
    ensures FoundIn(seen + [o], objs, id, fmt, frame, now) ==
      if Candidate(objs[o], id, fmt) && objs[o].open then Considered(FoundIn(seen, objs, id, fmt, frame, now), o, objs[o], frame)
      else FoundIn(seen, objs, id, fmt, frame, now)
  {
    var os := OpenCandidates(seen, objs, id, fmt);
    OpenOne(seen, o, objs, id, fmt);
    if Candidate(objs[o], id, fmt) && objs[o].open {
      AtOne(os, o, objs);
      NearestDecoder.BestOne(At(os, objs), objs[o], frame, now);
      FoundNext(os, o, NearestDecoder.BestOf(At(os, objs), frame, now), objs[o], frame);
    }
  }

  function AsFound(os: seq<Oid>, b: NearestDecoder.Best): Found
    requires b.at.Some? ==> b.at.value < |os|
  {
    Found(if b.at.Some? then Some(os[b.at.value]) else None, b.lru, b.diff)
  }

  lemma FoundNext(os: seq<Oid>, o: Oid, b: NearestDecoder.Best, j: Jvo, frame: int)
    requires b.at.Some? ==> b.at.value < |os|
    ensures AsFound(os + [o], NearestDecoder.Next(b, |os|, j, frame)) == Considered(AsFound(os, b), o, j, frame)
  {
  }

  /** The variables of testjvd when it has seen part of the list. */
  predicate Tested(seen: seq<Oid>, objs: map<Oid, Jvo>, id: nat, fmt: int, frame: int, now: int,
                   open: Option<Oid>, closed: Option<Oid>, lruOpen: int, lruClosed: int, framediff: int)
  {
    && (closed, lruClosed) == LruIn(seen, objs, id, fmt, false, now)
    && (frame < 0 ==> (open, lruOpen) == LruIn(seen, objs, id, fmt, true, now))
    && (frame >= 0 ==> Found(open, lruOpen, framediff) == FoundIn(seen, objs, id, fmt, frame, now))
  }

  /** What one object does to them. */
  predicate TestsTo(objs: map<Oid, Jvo>, o: Oid, id: nat, fmt: int, frame: int,
                    open: Option<Oid>, closed: Option<Oid>, lruOpen: int, lruClosed: int, framediff: int,
                    open': Option<Oid>, closed': Option<Oid>, lruOpen': int, lruClosed': int, framediff': int)
    requires o in objs
  {
    var j, ok := objs[o], Candidate(objs[o], id, fmt);
    && (closed', lruClosed') == (if ok && !j.open && j.lru < lruClosed then (Some(o), j.lru) else (closed, lruClosed))
    && (frame < 0 ==> (open', lruOpen') == if ok && j.open && j.lru < lruOpen then (Some(o), j.lru) else (open, lruOpen))
    && (frame >= 0 ==>
          Found(open', lruOpen', framediff') ==
            if ok && j.open then Considered(Found(open, lruOpen, framediff), o, j, frame) else Found(open, lruOpen, framediff))
  }

  lemma TestedNext(seen: seq<Oid>, o: Oid, objs: map<Oid, Jvo>, id: nat, fmt: int, frame: int, now: int,
                   open: Option<Oid>, closed: Option<Oid>, lruOpen: int, lruClosed: int, framediff: int,
                   open': Option<Oid>, closed': Option<Oid>, lruOpen': int, lruClosed': int, framediff': int)
    requires o in objs && Tested(seen, objs, id, fmt, frame, now, open, closed, lruOpen, lruClosed, framediff)
    requires TestsTo(objs, o, id, fmt, frame, open, closed, lruOpen, lruClosed, framediff, open', closed', lruOpen', lruClosed', framediff')
    ensures Tested(seen + [o], objs, id, fmt, frame, now, open', closed', lruOpen', lruClosed', framediff')
  {
    LruOne(seen, o, objs, id, fmt, false, now);
    LruOne(seen, o, objs, id, fmt, true, now);
    FoundStep(seen, o, objs, id, fmt, frame, now);
  }

  /** The least recently used of the open or the closed ones among those seen, and its lru. */
  function LruIn(seen: seq<Oid>, objs: map<Oid, Jvo>, id: nat, fmt: int, open: bool, now: int): (Option<Oid>, int)
  {
    if seen == [] then (None, now + 1)
    else
      var o, r := seen[|seen| - 1], LruIn(seen[..|seen| - 1], objs, id, fmt, open, now);
      if o in objs && Candidate(objs[o], id, fmt) && objs[o].open == open && objs[o].lru < r.1 then (Some(o), objs[o].lru) else r
  }

  lemma LruOne(seen: seq<Oid>, o: Oid, objs: map<Oid, Jvo>, id: nat, fmt: int, open: bool, now: int)
    requires o in objs
    ensures var r := LruIn(seen, objs, id, fmt, open, now);
      LruIn(seen + [o], objs, id, fmt, open, now) ==
        if Candidate(objs[o], id, fmt) && objs[o].open == open && objs[o].lru < r.1 then (Some(o), objs[o].lru) else r
  {
    assert (seen + [o])[..|seen|] == seen;
  }

  lemma {:induction false} LruIs(seen: seq<Oid>, objs: map<Oid, Jvo>, id: nat, fmt: int, open: bool, now: int)
    requires forall o :: o in seen ==> o in objs && objs[o].lru <= now
    ensures var (r, lru) := LruIn(seen, objs, id, fmt, open, now);
      && (if r.Some? then r.value in seen && Candidate(objs[r.value], id, fmt) && objs[r.value].open == open && lru == objs[r.value].lru
          else lru == now + 1)
      && forall o :: o in seen && Candidate(objs[o], id, fmt) && objs[o].open == open ==> r.Some? && lru <= objs[o].lru
  {
    if seen != [] {
      LruIs(seen[..|seen| - 1], objs, id, fmt, open, now);
      assert forall o :: o in seen <==> o in seen[..|seen| - 1] || o == seen[|seen| - 1];
    }
  }

  // What getjvo takes over

  /** dec_closed, dec_open and lru of getjvo */
  datatype Victims = Victims(closed: Option<Oid>, open: Option<Oid>, lru: int)

  /** The scan: one lru serves the closed and the open ones. */
  function VictimsIn(seen: seq<Oid>, objs: map<Oid, Jvo>, now: int): Victims
  {
    if seen == [] then Victims(None, None, now + 1)
    else
      var o, v := seen[|seen| - 1], VictimsIn(seen[..|seen| - 1], objs, now);
      if o in objs then WithVictim(v, o, objs[o]) else v
  }

  function Victim(v: Victims): Option<Oid>
  {
    if v.closed.Some? then v.closed else v.open
  }

  /** What getjvo knows when it has seen part of the list. */
  predicate Scanned(seen: seq<Oid>, objs: map<Oid, Jvo>, now: int, v: Victims)
  {
    v == VictimsIn(seen, objs, now) && forall o :: o in seen ==> o in objs && !Blank(objs[o])
  }

  function WithVictim(v: Victims, o: Oid, j: Jvo): Victims
  {
    if !Busy(j) && j.lru < v.lru then
      if j.open then v.(open := Some(o), lru := j.lru) else v.(closed := Some(o), lru := j.lru)
    else v
  }

  lemma ScannedNext(seen: seq<Oid>, o: Oid, objs: map<Oid, Jvo>, now: int, v: Victims)
    requires Scanned(seen, objs, now, v) && o in objs && !Blank(objs[o])
    ensures Scanned(seen + [o], objs, now, WithVictim(v, o, objs[o]))
  {
    VictimsOne(seen, o, objs, now);
  }

  lemma VictimsOne(seen: seq<Oid>, o: Oid, objs: map<Oid, Jvo>, now: int)
    requires o in objs
    ensures VictimsIn(seen + [o], objs, now) == WithVictim(VictimsIn(seen, objs, now), o, objs[o])
  {
    assert (seen + [o])[..|seen|] == seen;
  }

  /** A free object that is less recently used than all free ones before it. */
  predicate Oldest(list: seq<Oid>, objs: map<Oid, Jvo>, now: int, i: nat)
    requires forall o :: o in list ==> o in objs
  {
    && i < |list| && !Busy(objs[list[i]]) && objs[list[i]].lru <= now
    && forall j :: 0 <= j < i && !Busy(objs[list[j]]) ==> objs[list[i]].lru < objs[list[j]].lru
  }

  lemma OldestInPrefix(list: seq<Oid>, objs: map<Oid, Jvo>, now: int, i: nat)
    requires (forall o :: o in list ==> o in objs) && i + 1 < |list|
    ensures Oldest(list[..|list| - 1], objs, now, i) <==> Oldest(list, objs, now, i)
  {
    var front := list[..|list| - 1];
    assert forall j :: 0 <= j <= i ==> front[j] == list[j];
  }

  /** lru is that of the least recently used free object, if it is not from the future. */
  lemma {:induction false} VictimsLru(list: seq<Oid>, objs: map<Oid, Jvo>, now: int)
    requires forall o :: o in list ==> o in objs
    ensures var v := VictimsIn(list, objs, now);
      && v.lru <= now + 1 && (forall j :: 0 <= j < |list| && !Busy(objs[list[j]]) ==> v.lru <= objs[list[j]].lru)
      && (v.lru == now + 1 <==> v.closed.None? && v.open.None?)
      && (v.lru == now + 1 || exists j :: 0 <= j < |list| && !Busy(objs[list[j]]) && objs[list[j]].lru == v.lru)
      && (v.closed.None? && v.open.Some? ==> v.open.value in list && objs[v.open.value].lru == v.lru)
      && (v.open.Some? ==> v.open.value in list && !Busy(objs[v.open.value]) && objs[v.open.value].open)
  {
    if list != [] {
      var n := |list| - 1;
      VictimsLru(list[..n], objs, now);
      assert forall j :: 0 <= j < n ==> list[..n][j] == list[j];
    }
  }

  /** The closed one is the last closed one that is less recently used than all free ones before it. */
  ghost predicate LastClosed(list: seq<Oid>, objs: map<Oid, Jvo>, now: int, i: nat)
    requires forall o :: o in list ==> o in objs
  {
    && Oldest(list, objs, now, i) && !objs[list[i]].open
    && forall j: nat {:trigger Oldest(list, objs, now, j)} :: i < j && Oldest(list, objs, now, j) ==> objs[list[j]].open
  }

  lemma {:induction false} ClosedVictim(list: seq<Oid>, objs: map<Oid, Jvo>, now: int) returns (i: nat)
    requires forall o :: o in list ==> o in objs
    ensures var v := VictimsIn(list, objs, now);
      if v.closed.Some? then LastClosed(list, objs, now, i) && list[i] == v.closed.value
      else forall j: nat {:trigger Oldest(list, objs, now, j)} :: Oldest(list, objs, now, j) ==> objs[list[j]].open
  {
    i := 0;
    if list != [] {
      var n := |list| - 1;
      i := ClosedVictim(list[..n], objs, now);
      VictimsLru(list[..n], objs, now);
      OldestAtEnd(list, objs, now);
      forall j: nat {:trigger Oldest(list, objs, now, j)} | j < n ensures Oldest(list[..n], objs, now, j) <==> Oldest(list, objs, now, j) {
        OldestInPrefix(list, objs, now, j);
      }
      if Oldest(list, objs, now, n) && !objs[list[n]].open {
        i := n;
      }
    }
  }

  lemma OldestAtEnd(list: seq<Oid>, objs: map<Oid, Jvo>, now: int)
    requires (forall o :: o in list ==> o in objs) && list != []
    ensures var n := |list| - 1;
      Oldest(list, objs, now, n) <==> !Busy(objs[list[n]]) && objs[list[n]].lru < VictimsIn(list[..n], objs, now).lru
  {
    var n := |list| - 1;
    VictimsLru(list[..n], objs, now);
    assert forall j :: 0 <= j < n ==> list[..n][j] == list[j];
  }

  /** The object to take over is free, and there is none exactly if all are busy, or used in the future. */
  lemma VictimIsFree(list: seq<Oid>, objs: map<Oid, Jvo>, now: int)
    requires forall o :: o in list ==> o in objs
    ensures var r := Victim(VictimsIn(list, objs, now));
      && (r.Some? ==> r.value in list && !Busy(objs[r.value]))
      && (r.None? <==> forall o :: o in list ==> Busy(objs[o]) || objs[o].lru > now)
  {
    var i := ClosedVictim(list, objs, now);
    VictimsLru(list, objs, now);
    forall o | o in list && !Busy(objs[o]) ensures VictimsIn(list, objs, now).lru <= objs[o].lru {
      var j :| 0 <= j < |list| && list[j] == o;
    }
  }

  /**
    It is a closed one exactly if some closed one is less recently used than all free ones
    before it, open or closed, and then it is the last such one; otherwise it is the least
    recently used of all that are free.
    */
  lemma VictimIs(list: seq<Oid>, objs: map<Oid, Jvo>, now: int)
    requires forall o :: o in list ==> o in objs
    ensures var r := Victim(VictimsIn(list, objs, now));
      && (r.Some? ==> r.value in list)
      && (r.Some? && !objs[r.value].open <==> exists i: nat :: Oldest(list, objs, now, i) && !objs[list[i]].open)
      && (r.Some? && !objs[r.value].open ==> exists i: nat :: LastClosed(list, objs, now, i) && list[i] == r.value)
      && (r.Some? && objs[r.value].open ==> forall o :: o in list && !Busy(objs[o]) ==> objs[r.value].lru <= objs[o].lru)
  {
    var i := ClosedVictim(list, objs, now);
    VictimsLru(list, objs, now);
    forall o | o in list && !Busy(objs[o]) ensures VictimsIn(list, objs, now).lru <= objs[o].lru {
      var j :| 0 <= j < |list| && list[j] == o;
    }
  }

  /** A closed object is passed over for an open one before it that is used longer ago. */
  lemma OlderOpenIsTakenOver(a: Oid, b: Oid, objs: map<Oid, Jvo>, now: int)
    requires a in objs && b in objs && objs[a].open && !objs[b].open && !Busy(objs[a]) && !Busy(objs[b])
    requires objs[a].lru <= objs[b].lru && objs[a].lru <= now
    ensures Victim(VictimsIn([a, b], objs, now)) == Some(a)
  {
    VictimsOne([], a, objs, now);
    VictimsOne([a], b, objs, now);
    assert [] + [a] == [a] && [a] + [b] == [a, b];
  }

  /** What the scan has come to at the end of the list. */
  lemma FoundAtEnd(list: seq<Oid>, objs: map<Oid, Jvo>, id: nat, fmt: int, frame: int, now: int)
    requires (forall o :: o in list <==> o in objs) && forall o :: o in objs ==> objs[o].lru <= now
    ensures var r, os := FoundIn(list, objs, id, fmt, frame, now).open, OpenCandidates(list, objs, id, fmt);
      && (r.None? <==> os == [])
      && (r.Some? ==> r.value in os)
  {
    var os := OpenCandidates(list, objs, id, fmt);
    if os != [] {
      NearestDecoder.NearestIff(At(os, objs), frame, now);
    }
  }

  /** It is the nearest that is not ahead of the frame exactly if the open decoders are in a favourable order. */
  lemma FoundIsNearestIff(list: seq<Oid>, objs: map<Oid, Jvo>, id: nat, fmt: int, frame: int, now: int)
    requires (forall o :: o in list <==> o in objs) && forall o :: o in objs ==> objs[o].lru <= now
    requires OpenCandidates(list, objs, id, fmt) != []
    ensures var r, os := FoundIn(list, objs, id, fmt, frame, now).open, OpenCandidates(list, objs, id, fmt);
      && r.Some? && r.value in objs
      && ((forall o :: o in os && objs[o].frame <= frame ==> objs[o].frame <= objs[r.value].frame <= frame)
          <==> NearestDecoder.Favourable(At(os, objs), frame))
  {
    var os := OpenCandidates(list, objs, id, fmt);
    var best := NearestDecoder.BestOf(At(os, objs), frame, now).at;
    NearestDecoder.NearestIff(At(os, objs), frame, now);
    NearestAt(os, objs, frame, best.value);
  }

  lemma NearestAt(os: seq<Oid>, objs: map<Oid, Jvo>, frame: int, r: nat)
    requires (forall o :: o in os ==> o in objs) && r < |os|
    ensures NearestDecoder.Nearest(At(os, objs), frame, r) <==>
      forall o :: o in os && objs[o].frame <= frame ==> objs[o].frame <= objs[os[r]].frame <= frame
  {
    var cs := At(os, objs);
    assert cs[r] == objs[os[r]];
    if NearestDecoder.Nearest(cs, frame, r) {
      forall o | o in os && objs[o].frame <= frame ensures objs[o].frame <= objs[os[r]].frame <= frame {
        var i :| 0 <= i < |os| && os[i] == o;
        assert cs[i] == objs[o];
      }
    } else {
      var i :| 0 <= i < |cs| && cs[i].frame <= frame && !(cs[i].frame <= cs[r].frame <= frame);
      assert os[i] in os && cs[i] == objs[os[i]];
    }
  }

  function OpenObject(id: nat, fmt: int, frame: int, lru: int): Jvo
  {
    NEW_JVO.(id := id, fmt := fmt, frame := frame, lru := lru, open := true, valid := true, decoder := Some(Decoder("", fmt)))
  }

  lemma FoundTwo(one: seq<Oid>, two: seq<Oid>, a: Oid, b: Oid, objs: map<Oid, Jvo>, id: nat, fmt: int, now: int)
    requires a in objs && Candidate(objs[a], id, fmt) && objs[a].open && b in objs && Candidate(objs[b], id, fmt) && objs[b].open
    requires one == [] + [a] && two == one + [b]
    ensures FoundIn(two, objs, id, fmt, 10, now) == Considered(Considered(Found(None, now + 1, -1), a, objs[a], 10), b, objs[b], 10)
  {
    FoundNone(objs, id, fmt, 10, now);
    FoundStep([], a, objs, id, fmt, 10, now);
    FoundStep(one, b, objs, id, fmt, 10, now);
  }

  lemma FoundNone(objs: map<Oid, Jvo>, id: nat, fmt: int, frame: int, now: int)
    ensures FoundIn([], objs, id, fmt, frame, now) == Found(None, now + 1, -1)
  {
  }

  lemma ListOfTwo(a: Oid, b: Oid, j: Jvo, k: Jvo)
    requires a != b && AtRest(j) && AtRest(k)
    ensures ListOk([a, b], map[a := j, b := k])
  {
    assert [a, b][..1] == [a] && [a][..0] == [];
    assert NoRepeats([a]);
  }

  /** Two lists for which it is not: the decoder at 20 is found for frame 10 instead of the one at 5, and the one at 3 instead of the one at 10. */
  lemma FarDecoders(a: Oid, b: Oid, id: nat, fmt: int, now: int)
    requires a != b && id > 0 && fmt != NO_FMT && now >= 2
    ensures var objs := map[a := OpenObject(id, fmt, 20, 1), b := OpenObject(id, fmt, 5, 2)];
      ListOk([a, b], objs) && FoundIn([a, b], objs, id, fmt, 10, now).open == Some(a)
    ensures var objs := map[a := OpenObject(id, fmt, 10, 2), b := OpenObject(id, fmt, 3, 1)];
      ListOk([a, b], objs) && FoundIn([a, b], objs, id, fmt, 10, now).open == Some(b)
  {
    ListOfTwo(a, b, OpenObject(id, fmt, 20, 1), OpenObject(id, fmt, 5, 2));
    ListOfTwo(a, b, OpenObject(id, fmt, 10, 2), OpenObject(id, fmt, 3, 1));
    FoundTwo([a], [a, b], a, b, map[a := OpenObject(id, fmt, 20, 1), b := OpenObject(id, fmt, 5, 2)], id, fmt, now);
    FoundTwo([a], [a, b], a, b, map[a := OpenObject(id, fmt, 10, 2), b := OpenObject(id, fmt, 3, 1)], id, fmt, now);
  }

  /** For a frame ahead of all open decoders it is the closest, and the least recently used of those. */
  lemma FoundBehind(list: seq<Oid>, objs: map<Oid, Jvo>, id: nat, fmt: int, frame: int, now: int, o: Oid)
    requires forall o :: o in objs ==> objs[o].lru <= now
    requires forall o :: o in OpenCandidates(list, objs, id, fmt) ==> objs[o].frame < frame
    requires o in OpenCandidates(list, objs, id, fmt)
    ensures var r := FoundIn(list, objs, id, fmt, frame, now).open;
      && r.Some? && r.value in objs
      && objs[o].frame <= objs[r.value].frame && (objs[o].frame == objs[r.value].frame ==> objs[r.value].lru <= objs[o].lru)
  {
    var os := OpenCandidates(list, objs, id, fmt);
    var cs := At(os, objs);
    NearestDecoder.AllBehind(cs, frame, now);
    var i :| 0 <= i < |os| && os[i] == o;
    assert cs[i] == objs[o];
  }

  /** What a user of the list can ask for. */
  datatype Op =
    | Request(id: nat, fmt: int, frame: int, o: Oid, file: Option<File>)   // dctrl_get_decoder
    | Render(o: Oid, frame: int)
    | LetGo(o: Oid, info: bool)
    | Flush(f: nat, filter: int)
    | Wait(seconds: nat)

  class Jvd {
    const root: Oid                      // the head of the list
    var next: map<Oid, Option<Oid>>
    ghost var list: seq<Oid>
    var objs: map<Oid, Jvo>
    var jvi: map<nat, Oid>               // by id
    var jvf: map<(nat, int), Oid>        // by id and format
    var failed: set<nat>                 // ids released because their file could not be opened
    const maxObjects: int

    ghost predicate Valid()
      reads this
    {
      ListValid() && IndexOk(list[0], objs, jvi, jvf)
    }

    ghost predicate ListValid()
      reads `list, `next, `objs
    {
      ListOk(list, objs) && list[0] == root && Linked(list, next)
    }

    ghost predicate AllSettled()
      reads this
    {
      list != [] && Settled(list[0], objs, jvi, failed)
    }

    ghost predicate ClockOk(now: int)
      reads `objs
    {
      forall o :: o in objs ==> objs[o].lru <= now
    }

    /** dctrl_create */
    constructor (max: int, root: Oid)
      ensures Valid() && AllSettled() && list == [root] && objs == map[root := NEW_JVO] && maxObjects == max
      ensures forall now {:trigger Good(now)} :: now >= 600 ==> Good(now)
    {
      this.root, next, list := root, map[root := None], [root];
      objs := map[root := NEW_JVO];
      jvi := map[NEW_JVO.id := root];
      jvf := map[(NEW_JVO.id, NEW_JVO.fmt) := root];
      failed := {};
      maxObjects := max;
    }

    /**
      testjvd: a free object for the request.  Open ones are preferred to closed ones, and of
      several closed ones the least recently used is taken.  Of several open ones it is the
      least recently used one for information requests, and to decode a frame the one that
      NearestDecoder is about; for a frame that lies ahead of all of them, the one closest to
      it, and the least recently used of those.
      */
    method Test(id: nat, fmt: int, frame: int, now: int) returns (r: Option<Oid>)
      requires ListValid() && ClockOk(now)
      ensures r.None? <==> forall o :: o in objs ==> !Candidate(objs[o], id, fmt)
      ensures r.Some? ==> r.value in objs && Candidate(objs[r.value], id, fmt)
      ensures r.Some? ==> var j := objs[r.value];
        j.valid && j.id == id && (fmt == -1 || j.fmt == fmt || j.fmt == -1) && !(j.used || j.pending || j.info)
      ensures r.None? ==> forall o :: o in objs && objs[o].valid && objs[o].id == id && (fmt == -1 || objs[o].fmt == fmt || objs[o].fmt == -1) ==>
        objs[o].used || objs[o].pending || objs[o].info
      ensures r.Some? && !objs[r.value].open ==>
        forall o :: o in objs && Candidate(objs[o], id, fmt) ==> !objs[o].open && objs[r.value].lru <= objs[o].lru
      ensures r.Some? && objs[r.value].open && frame < 0 ==>
        forall o :: o in objs && Candidate(objs[o], id, fmt) && objs[o].open ==> objs[r.value].lru <= objs[o].lru
      ensures r.Some? && objs[r.value].open && frame >= 0 ==> r == FoundIn(list, objs, id, fmt, frame, now).open
      ensures (r.Some? && objs[r.value].open && frame >= 0
               && forall o :: o in objs && Candidate(objs[o], id, fmt) && objs[o].open ==> objs[o].frame < frame) ==>
        forall o :: o in objs && Candidate(objs[o], id, fmt) && objs[o].open ==>
          objs[o].frame <= objs[r.value].frame && (objs[o].frame == objs[r.value].frame ==> objs[r.value].lru <= objs[o].lru)
    {
      FoundAtEnd(list, objs, id, fmt, frame, now);
      LruIs(list, objs, id, fmt, true, now);
      LruIs(list, objs, id, fmt, false, now);
      var open, closed := TestOpenAndClosed(id, fmt, frame, now);
      ghost var os := OpenCandidates(list, objs, id, fmt);
      if frame >= 0 && open.Some? && forall o :: o in os ==> objs[o].frame < frame {
        forall o | o in os
          ensures objs[o].frame <= objs[open.value].frame && (objs[o].frame == objs[open.value].frame ==> objs[open.value].lru <= objs[o].lru)
        {
          FoundBehind(list, objs, id, fmt, frame, now, o);
        }
      }
      r := if open.Some? then open else closed;
    }

    /** The loop of testjvd: dec_open and dec_closed at its end. */
    method TestOpenAndClosed(id: nat, fmt: int, frame: int, now: int) returns (open: Option<Oid>, closed: Option<Oid>)
      requires ListValid()
      ensures closed == LruIn(list, objs, id, fmt, false, now).0
      ensures open == if frame < 0 then LruIn(list, objs, id, fmt, true, now).0 else FoundIn(list, objs, id, fmt, frame, now).open
    {
      open, closed := None, None;
      var lruOpen, lruClosed, framediff := now + 1, now + 1, -1;
      var cptr := Some(root);
      ghost var i := 0;
      while cptr.Some?
        invariant 0 <= i <= |list| && cptr == ElementAt(list, i)
        invariant Tested(list[..i], objs, id, fmt, frame, now, open, closed, lruOpen, lruClosed, framediff)
        decreases |list| - i
      {
        var o := cptr.value;
        assert LinkAt(list, next, i);
        assert list[..i + 1] == list[..i] + [o];
        ghost var was := (open, closed, lruOpen, lruClosed, framediff);
        open, closed, lruOpen, lruClosed, framediff := TestObject(o, id, fmt, frame, open, closed, lruOpen, lruClosed, framediff);
        TestedNext(list[..i], o, objs, id, fmt, frame, now, was.0, was.1, was.2, was.3, was.4, open, closed, lruOpen, lruClosed, framediff);
        cptr, i := next[o], i + 1;
      }
      assert list[..i] == list;
    }

    /** The body of the loop. */
    method TestObject(o: Oid, id: nat, fmt: int, frame: int, open: Option<Oid>, closed: Option<Oid>, lruOpen: int, lruClosed: int, framediff: int)
      returns (open': Option<Oid>, closed': Option<Oid>, lruOpen': int, lruClosed': int, framediff': int)
      requires o in objs
      ensures TestsTo(objs, o, id, fmt, frame, open, closed, lruOpen, lruClosed, framediff, open', closed', lruOpen', lruClosed', framediff')
    {
      open', closed', lruOpen', lruClosed', framediff' := open, closed, lruOpen, lruClosed, framediff;
      var ok := Suits(o, id, fmt);
      if ok {
        if !objs[o].open {
          if objs[o].lru < lruClosed {
            lruClosed', closed' := objs[o].lru, Some(o);
          }
        } else if frame < 0 {
          if objs[o].lru < lruOpen {
            lruOpen', open' := objs[o].lru, Some(o);
          }
        } else {
          open', lruOpen', framediff' := Consider(o, frame, open, lruOpen, framediff);
        }
      }
    }

    /** The three tests at the head of the loop */
    method Suits(o: Oid, id: nat, fmt: int) returns (ok: bool)
      requires o in objs
      ensures ok == Candidate(objs[o], id, fmt)
    {
      var c := objs[o];
      if !c.valid || c.id != id {
        return false;
      }
      if fmt != NO_FMT && c.fmt != fmt && c.fmt != NO_FMT {
        return false;
      }
      ok := !(c.used || c.pending || c.info);
    }

    /** Frame proximity */
    method Consider(o: Oid, frame: int, open: Option<Oid>, lruOpen: int, framediff: int)
      returns (open': Option<Oid>, lruOpen': int, framediff': int)
      requires o in objs
      ensures Found(open', lruOpen', framediff') == Considered(Found(open, lruOpen, framediff), o, objs[o], frame)
    {
      open', lruOpen', framediff' := open, lruOpen, framediff;
      var fd := frame - objs[o].frame;
      if framediff < 0 || (fd >= 0 && fd == framediff) {
        if objs[o].lru < lruOpen {
          lruOpen', open' := objs[o].lru, Some(o);
          if fd > 0 {
            framediff' := fd;
          }
        }
      } else if fd >= 0 && fd < framediff {
        lruOpen', open', framediff' := objs[o].lru, Some(o), fd;
      }
    }

    /** hashref_delete_jvo */
    method HashrefDelete(o: Oid)
      requires list != [] && IndexOk(list[0], objs, jvi, jvf) && o in objs
      modifies `jvi, `jvf
      ensures jvi == Deleted(old(jvi), o) && jvf == Deleted(old(jvf), o)
    {
      if o in jvf.Values {
        jvi := map k | k in jvi && jvi[k] != o :: jvi[k];
        jvf := map k | k in jvf && jvf[k] != o :: jvf[k];
      } else {
        assert BothOrNeither(objs, jvi, jvf, o);
        assert forall k :: ById(list[0], objs, jvi, k) ==> k in jvi && jvi[k] == o ==> k == objs[o].id;
        assert jvi == Deleted(jvi, o);
        assert jvf == Deleted(jvf, o);
      }
    }

    /** Where the sweep stands: it visits the object at position pos, and prev is the one before it, or the root. */
    ghost predicate AtPosition(mem: Oid, prev: Oid, pos: nat)
      reads `list, `next, `objs
    {
      && NoRepeats(list) && Linked(list, next) && (forall o :: o in list ==> o in objs)
      && pos < |list| && list[0] == root && mem == list[pos] && Precedes(list, prev, pos)
    }

    /**
      One round of the loop of clearjvo.  When it frees an object, the one before it is another
      one, and points past it from now on.
      */
    method Visit(mem: Oid, prev: Oid, ghost pos: nat, f: nat, id: int, age: int, now: int) returns (fate: Fate, nxt: Option<Oid>)
      requires AtPosition(mem, prev, pos) && IndexOk(root, objs, jvi, jvf)
      modifies `list, `next, `objs, `jvi, `jvf
      ensures list != [] && list[0] == root && NoRepeats(list) && Linked(list, next) && IndexOk(root, objs, jvi, jvf)
      ensures nxt == ElementAt(old(list), pos + 1)
      ensures fate == FateOf(Purge(f, id, age, now, root), mem, old(objs[mem]))
      ensures fate == Free ==> prev != mem && next == old(next)[prev := nxt] - {mem}
      ensures fate != Free ==> next == old(next)
      ensures list == (if fate == Free then Removed(old(list), pos) else old(list))
        && objs == (if fate == Free then old(objs) - {mem} else if fate == Clear then old(objs)[mem := Cleared(old(objs[mem]), f)] else old(objs))
        && jvi == (if fate == Free || fate == Clear then Deleted(old(jvi), mem) else old(jvi))
        && jvf == (if fate == Free || fate == Clear then Deleted(old(jvf), mem) else old(jvf))
    {
      assert LinkAt(list, next, pos);
      nxt := next[mem];
      if (id > 0 && objs[mem].id != id) || (age > 0 && objs[mem].lru + age > now) {
        fate := Skip;
        return;
      }
      if objs[mem].used || objs[mem].pending || objs[mem].info {
        fate := StayBusy;
        return;
      }
      DeleteKeepsIndex(root, objs, jvi, jvf, mem);
      HashrefDelete(mem);
      ChangeKeepsIndex(root, objs, jvi, jvf, mem, Cleared(objs[mem], f));
      if f > 1 && mem != root {
        NoRepeatsAt(list, pos - 1, pos);
        assert prev != mem;
        FreeObject(mem, prev, nxt, pos);
        fate := Free;
      } else {
        if pos > 0 { NoRepeatsAt(list, 0, pos); }
        ClearObject(mem, f);
        fate := Clear;
      }
    }

    method FreeObject(mem: Oid, prev: Oid, nxt: Option<Oid>, ghost pos: nat)
      requires AtPosition(mem, prev, pos) && pos > 0 && nxt == ElementAt(list, pos + 1)
      modifies `list, `next, `objs
      ensures list == Removed(old(list), pos) && next == old(next)[prev := nxt] - {mem} && objs == old(objs) - {mem}
      ensures list[0] == root && NoRepeats(list) && Linked(list, next)
    {
      UnlinkKeepsLinks(list, next, pos);
      RemovedHasNoRepeats(list, pos);
      next := next[prev := nxt] - {mem};
      objs := objs - {mem};
      list := Removed(list, pos);
    }

    /**
      clearjvo for an exclusive caller: every object meets its fate; the freed ones leave the
      list, the others stay in their order, and what is cleared leaves the indexes.
      */
    method ClearJvo(f: nat, id: int, age: int, now: int)
      returns (total: nat, skipped: nat, busy: nat, freed: nat, cleared: nat)
      requires Valid() && f <= 3
      // mode 3 waits until the busy objects are released
      requires f == 3 ==> forall o :: o in objs ==> FateOf(Purge(f, id, age, now, list[0]), o, objs[o]) != StayBusy
      modifies `list, `next, `objs, `jvi, `jvf
      ensures Valid() && (old(AllSettled()) ==> AllSettled())
      ensures var p := Purge(f, id, age, now, old(list[0]));
        && list == Survivors(p, old(list), old(objs)) && list[0] == p.root
        && objs == SurvivingObjects(p, old(objs))
        && jvi == SurvivingIndex(p, old(jvi), old(objs))
        && jvf == SurvivingIndex(p, old(jvf), old(objs))
      ensures forall o {:trigger SweptObject(f, id, age, now, root, o, old(objs), old(jvi), old(jvf), objs, jvi, jvf)} ::
        SweptObject(f, id, age, now, root, o, old(objs), old(jvi), old(jvf), objs, jvi, jvf)
      ensures total == |old(list)| == skipped + busy + freed + cleared
      ensures |list| == total - freed
    {
      ghost var p := Purge(f, id, age, now, root);
      forall o ensures SweptObject(f, id, age, now, root, o, objs, jvi, jvf,
                                   SurvivingObjects(p, objs), SurvivingIndex(p, jvi, objs), SurvivingIndex(p, jvf, objs)) {
        assert Rests(objs, o);
        SweepIs(p, objs, jvi, jvf, o);
      }
      SweepKeepsList(p, list, objs);
      SweepKeepsIndex(p, objs, jvi, jvf);
      if AllSettled() {
        SweepKeepsSettled(p, objs, jvi, failed);
      }
      total, skipped, busy, freed, cleared := Sweep(f, id, age, now);
    }

    /** The loop of clearjvo. */
    method Sweep(f: nat, id: int, age: int, now: int)
      returns (total: nat, skipped: nat, busy: nat, freed: nat, cleared: nat)
      requires ListShape() && IndexOk(root, objs, jvi, jvf)
      modifies `list, `next, `objs, `jvi, `jvf
      ensures var p := Purge(f, id, age, now, root);
        && list == Survivors(p, old(list), old(objs)) && Linked(list, next)
        && objs == SurvivingObjects(p, old(objs))
        && jvi == SurvivingIndex(p, old(jvi), old(objs))
        && jvf == SurvivingIndex(p, old(jvf), old(objs))
      ensures total == |old(list)| == skipped + busy + freed + cleared
      ensures |list| == total - freed
    {
      ghost var p := Purge(f, id, age, now, root);
      ghost var was, objs0, jvi0, jvf0 := list, objs, jvi, jvf;
      ghost var gone, pos := {}, 0;
      total, skipped, busy, freed, cleared := 0, 0, 0, 0, 0;
      Starting(p, gone);
      var cptr, prev := Some(root), root;
      while cptr.Some?
        invariant Sweeping(p, was, objs0, jvi0, jvf0, gone, total, pos, cptr, prev)
        invariant pos == total - freed
        invariant total == skipped + busy + freed + cleared
        decreases |was| - total
      {
        Underway(p, was, objs0, jvi0, jvf0, gone, total, pos, cptr, prev);
        var mem := cptr.value;
        var fate;
        fate, cptr, gone := Round(mem, prev, pos, f, id, age, now, p, was, objs0, jvi0, jvf0, gone, total);
        total := total + 1;
        match fate
        case Skip => skipped, prev, pos := skipped + 1, mem, pos + 1;
        case StayBusy => busy, prev, pos := busy + 1, mem, pos + 1;
        case Free => freed := freed + 1;
        case Clear => cleared, prev, pos := cleared + 1, mem, pos + 1;
      }
      Finished(p, was, objs0, jvi0, jvf0, gone, total, pos, cptr, prev);
    }

    ghost predicate ListShape()
      reads `list, `next, `objs
    {
      list != [] && list[0] == root && NoRepeats(list) && Linked(list, next) && forall o :: o in list <==> o in objs
    }

    lemma Starting(p: Purge, gone: set<Oid>)
      requires root == p.root && ListShape() && IndexOk(root, objs, jvi, jvf) && gone == {}
      ensures Sweeping(p, list, objs, jvi, jvf, gone, 0, 0, Some(root), root)
    {
      WithoutOneMore(jvi, gone, 0);
      WithoutOneMore(jvf, gone, 0);
    }

    lemma Underway(p: Purge, was: seq<Oid>, objs0: map<Oid, Jvo>, jvi0: map<nat, Oid>, jvf0: map<(nat, int), Oid>, gone: set<Oid>, i: nat, pos: nat, cptr: Option<Oid>, prev: Oid)
      requires Sweeping(p, was, objs0, jvi0, jvf0, gone, i, pos, cptr, prev) && cptr.Some?
      ensures i < |was|
    {
      assert StandsAt(p, was, objs0, i, list, pos);
      VisitedAll(p, was, objs0, i);
    }

    /** At the end of the list all of it has been visited. */
    lemma Finished(p: Purge, was: seq<Oid>, objs0: map<Oid, Jvo>, jvi0: map<nat, Oid>, jvf0: map<(nat, int), Oid>, gone: set<Oid>, i: nat, pos: nat, cptr: Option<Oid>, prev: Oid)
      requires Sweeping(p, was, objs0, jvi0, jvf0, gone, i, pos, cptr, prev) && cptr.None?
      requires (forall o :: o in was <==> o in objs0) && IndexOk(p.root, objs0, jvi0, jvf0)
      ensures i == |was| && list == Survivors(p, was, objs0) && |list| == pos && Linked(list, next)
      ensures objs == SurvivingObjects(p, objs0)
      ensures jvi == SurvivingIndex(p, jvi0, objs0) && jvf == SurvivingIndex(p, jvf0, objs0)
    {
      assert StandsAt(p, was, objs0, i, list, pos);
      VisitedAll(p, was, objs0, i);
      ProgressEnd(p, was, objs0, objs, gone, jvi0, jvf0);
    }

    /** The first i of the objects that the list had have been visited. */
    ghost predicate Sweeping(p: Purge, was: seq<Oid>, objs0: map<Oid, Jvo>, jvi0: map<nat, Oid>, jvf0: map<(nat, int), Oid>,
                             gone: set<Oid>, i: nat, pos: nat, cptr: Option<Oid>, prev: Oid)
      reads this
    {
      && root == p.root && NoRepeats(list) && Linked(list, next)
      && i <= |was| && was != [] && was[0] == p.root && NoRepeats(was) && (forall o :: o in was ==> o in objs0)
      && Progress(p, was, objs0, objs, gone, i)
      && Stands(p, was, objs0, i, list, pos) && list != [] && list[0] == p.root
      && jvi == Without(jvi0, gone) && jvf == Without(jvf0, gone)
      && IndexOk(p.root, objs, jvi, jvf)
      && (i > 0 ==> pos > 0) && cptr == ElementAt(list, pos) && Precedes(list, prev, pos)
    }

    method Round(mem: Oid, prev: Oid, ghost pos: nat, f: nat, id: int, age: int, now: int,
                 ghost p: Purge, ghost was: seq<Oid>, ghost objs0: map<Oid, Jvo>, ghost jvi0: map<nat, Oid>, ghost jvf0: map<(nat, int), Oid>,
                 ghost gone: set<Oid>, ghost i: nat) returns (fate: Fate, nxt: Option<Oid>, ghost gone': set<Oid>)
      requires i < |was| && Sweeping(p, was, objs0, jvi0, jvf0, gone, i, pos, Some(mem), prev)
      requires p == Purge(f, id, age, now, root)
      modifies `list, `next, `objs, `jvi, `jvf
      ensures if fate == Free then Sweeping(p, was, objs0, jvi0, jvf0, gone', i + 1, pos, nxt, prev)
              else Sweeping(p, was, objs0, jvi0, jvf0, gone', i + 1, pos + 1, nxt, mem)
    {
      ghost var objs1, list1 := objs, list;
      VisitsNext(p, was, objs0, jvi0, jvf0, gone, i, pos, mem, prev);
      WithoutOneMore(jvi0, gone, mem);
      WithoutOneMore(jvf0, gone, mem);
      fate, nxt := Visit(mem, prev, pos, f, id, age, now);
      gone' := if fate == Free || fate == Clear then gone + {mem} else gone;
      ProgressStep(p, was, objs0, objs1, gone, i, objs, gone');
      StandsNext(p, was, objs0, i, list1, pos);
    }

    /** The object at hand is the next one that the list had, and has not been touched. */
    lemma VisitsNext(p: Purge, was: seq<Oid>, objs0: map<Oid, Jvo>, jvi0: map<nat, Oid>, jvf0: map<(nat, int), Oid>,
                     gone: set<Oid>, i: nat, pos: nat, mem: Oid, prev: Oid)
      requires i < |was| && Sweeping(p, was, objs0, jvi0, jvf0, gone, i, pos, Some(mem), prev)
      ensures AtPosition(mem, prev, pos) && mem == was[i] && Untouched(mem, objs0[mem], objs, gone)
    {
      assert StandsAt(p, was, objs0, i, list, pos);
      VisitedAt(p, was, objs0, i);
      StillThere(p, was, objs0, jvi0, jvf0, gone, i, pos, Some(mem), prev);
      assert Untouched(was[i], objs0[was[i]], objs, gone);
    }

    /** What is on the list has not been freed. */
    lemma StillThere(p: Purge, was: seq<Oid>, objs0: map<Oid, Jvo>, jvi0: map<nat, Oid>, jvf0: map<(nat, int), Oid>, gone: set<Oid>, i: nat, pos: nat, cptr: Option<Oid>, prev: Oid)
      requires Sweeping(p, was, objs0, jvi0, jvf0, gone, i, pos, cptr, prev)
      ensures forall o :: o in list ==> o in objs
    {
      assert StandsAt(p, was, objs0, i, list, pos);
      VisitedIs(p, was, objs0, i);
      PrefixHasNoRepeats(was, i);
      SurvivorsAre(p, was[..i], objs0);
      forall o | o in list ensures o in objs {
        var k :| 0 <= k < |was| && was[k] == o && (k < i ==> FateOf(p, o, objs0[o]) != Free);
        if k < i {
          assert Done(p, was[k], objs0[was[k]], objs, gone);
        } else {
          assert Untouched(was[k], objs0[was[k]], objs, gone);
        }
      }
    }

    /** Close the decoder, and forget the file unless f == 0. */
    method ClearObject(o: Oid, f: nat)
      requires o in objs
      modifies `objs
      ensures objs == old(objs)[o := Cleared(old(objs)[o], f)]
    {
      var j := objs[o];
      if j.open {
        j := j.(decoder := None, open := false, fmt := NO_FMT);
      }
      if f > 0 {
        j := j.(id := 0, lru := 0, frame := -1, valid := false);
      }
      objs := objs[o := j];
    }

    /** newjvo: append an object; `o` is what calloc returned. */
    method NewJvo(o: Oid)
      requires Valid() && o !in objs
      modifies `list, `next, `objs
      ensures list == old(list) + [o] && objs == old(objs)[o := NEW_JVO]
      ensures Valid() && (old(AllSettled()) ==> AllSettled()) && !Indexed(o)
    {
      assert forall k :: ById(list[0], objs, jvi, k) ==> k in jvi ==> jvi[k] != o;
      assert forall k :: ByFormat(objs, jvf, k) ==> k in jvf ==> jvf[k] != o;
      ChangeKeepsIndex(list[0], objs, jvi, jvf, o, NEW_JVO);
      NewInList(list, objs, o);
      if AllSettled() {
        ChangeKeepsSettled(list[0], objs, jvi, failed, o, NEW_JVO);
      }
      Append(o);
      objs := objs[o := NEW_JVO];
    }

    /** Walk to the end of the list, and append there. */
    method Append(o: Oid)
      requires list != [] && list[0] == root && NoRepeats(list) && Linked(list, next) && o !in list
      modifies `list, `next
      ensures list == old(list) + [o] && Linked(list, next)
    {
      var cptr := root;
      ghost var i := 0;
      assert LinkAt(list, next, 0);
      while next[cptr].Some?
        invariant 0 <= i < |list| && cptr == list[i] && cptr in next
        decreases |list| - i
      {
        assert LinkAt(list, next, i) && LinkAt(list, next, i + 1);
        cptr, i := next[cptr].value, i + 1;
      }
      assert LinkAt(list, next, i);
      AppendKeepsLinks(list, next, o);
      next := next[cptr := Some(o)][o := None];
      list := list + [o];
    }

    ghost predicate Indexed(o: Oid)
      reads `jvi, `jvf
    {
      (exists k :: k in jvi && jvi[k] == o) || (exists k :: k in jvf && jvf[k] == o)
    }

    /** The scan of getjvo: the first blank object, or else the object to take over. */
    method Scan(now: int) returns (blank: Option<Oid>, victim: Option<Oid>, count: nat)
      requires ListValid()
      ensures blank.Some? ==> blank.value in objs && Blank(objs[blank.value])
      ensures blank.None? ==> count == |list| && forall o :: o in objs ==> !Blank(objs[o])
      ensures blank.None? ==> victim == Victim(VictimsIn(list, objs, now))
    {
      var closed: Option<Oid>, open: Option<Oid> := None, None;
      var lru := now + 1;
      var cptr := Some(root);
      count := 0;
      while cptr.Some?
        invariant 0 <= count <= |list| && cptr == ElementAt(list, count)
        invariant Scanned(list[..count], objs, now, Victims(closed, open, lru))
        decreases |list| - count
      {
        var o := cptr.value;
        var j := objs[o];
        assert LinkAt(list, next, count);
        if !j.used && !j.open && !j.valid && !j.pending && !j.info {
          return cptr, None, count;
        }
        ScannedNext(list[..count], o, objs, now, Victims(closed, open, lru));
        assert list[..count + 1] == list[..count] + [o];
        if !j.used && !j.open && !j.pending && !j.info && j.lru < lru {
          lru, closed := j.lru, cptr;
        } else if !j.used && !j.pending && !j.info && j.lru < lru {
          lru, open := j.lru, cptr;
        }
        cptr, count := next[o], count + 1;
      }
      assert list[..count] == list;
      blank, victim := None, if closed.Some? then closed else open;
    }

    /**
      getjvo: an object without flags, found, appended or taken over.  It is not in the indexes,
      provided that the clock shows at least 600 (or else the initial root may still be).
      */
    method GetJvo(now: int, o: Oid) returns (r: Option<Oid>)
      requires Valid() && o !in objs && ClockOk(now)
      modifies `list, `next, `objs, `jvi, `jvf
      ensures Valid() && (old(AllSettled()) ==> AllSettled())
      ensures list == old(list) || (list == old(list) + [o] && |list| <= maxObjects && r == Some(o))
      ensures r.Some? ==> r.value in objs && Blank(objs[r.value])
      ensures r.Some? && now >= 600 ==> !Indexed(r.value)
      ensures r.None? <==> old(|list|) >= maxObjects && forall x :: x in old(objs) ==> Busy(old(objs)[x])
      ensures r.None? ==> objs == old(objs) && list == old(list)
      ensures now >= 0 ==> ClockOk(now)
      ensures forall x :: x in old(objs) && old(objs)[x].lru + 600 > now && r != Some(x) ==> x in objs && objs[x] == old(objs)[x]
      ensures forall x :: x in old(objs) && Busy(old(objs)[x]) ==> x in objs && objs[x] == old(objs)[x] && r != Some(x)
    {
      CollectGarbage(now);
      r := Choose(now, o);
    }

    /** Clear the objects that were not used for ten minutes. */
    method CollectGarbage(now: int)
      requires Valid() && ClockOk(now)
      modifies `list, `next, `objs, `jvi, `jvf
      ensures Valid() && (old(AllSettled()) ==> AllSettled()) && list == old(list)
      ensures forall x :: x in old(objs) <==> x in objs
      ensures forall x :: x in objs ==> if Busy(old(objs)[x]) then objs[x] == old(objs)[x] else !Busy(objs[x])
      ensures forall x :: x in objs && old(objs)[x].lru + 600 > now ==> objs[x] == old(objs)[x]
      ensures forall x :: x in objs && !Blank(objs[x]) ==> objs[x].lru <= now
      ensures now >= 600 ==> forall x :: x in objs && Blank(objs[x]) ==> !Indexed(x)
      ensures now >= 0 ==> ClockOk(now)
    {
      ghost var p := Purge(1, -1, 600, now, list[0]);
      NobodyFreed(p, list, objs);
      GarbageIs(p, objs);
      var _, _, _, _, _ := ClearJvo(1, -1, 600, now);
      if now >= 600 {
        forall x | x in objs && Blank(objs[x]) ensures !Indexed(x) {
          BlankIsNotIndexed(p, old(objs), old(jvi), old(jvf), x);
        }
      }
    }

    method Choose(now: int, o: Oid) returns (r: Option<Oid>)
      requires Valid() && o !in objs && forall x :: x in objs && !Blank(objs[x]) ==> objs[x].lru <= now
      modifies `list, `next, `objs, `jvi, `jvf
      ensures Valid() && (old(AllSettled()) ==> AllSettled())
      ensures list == old(list) || (list == old(list) + [o] && |list| <= maxObjects && r == Some(o))
      ensures r.Some? ==> r.value in objs && Blank(objs[r.value])
      ensures r.Some? ==> !Indexed(r.value) || (r.value in old(objs) && Blank(old(objs)[r.value]) && old(Indexed(r.value)))
      ensures r.None? <==> old(|list|) >= maxObjects && forall x :: x in old(objs) ==> Busy(old(objs)[x])
      ensures r.None? ==> objs == old(objs) && list == old(list)
      ensures old(ClockOk(now)) && now >= 0 ==> ClockOk(now)
      ensures forall x :: x in old(objs) && r != Some(x) ==> x in objs && objs[x] == old(objs)[x]
      ensures forall x :: x in old(objs) && Busy(old(objs)[x]) ==> x in objs && objs[x] == old(objs)[x] && r != Some(x)
    {
      var blank, victim, count := Scan(now);
      if blank.Some? {
        return blank;
      }
      VictimIsFree(list, objs, now);
      if count < 4 && count < maxObjects {
        NewJvo(o);
        return Some(o);
      }
      if victim.Some? {
        TakeOver(victim.value);
        return victim;
      }
      if count < maxObjects {
        NewJvo(o);
        return Some(o);
      }
      r := None;
    }

    method TakeOver(o: Oid)
      requires Valid() && o in objs && !Busy(objs[o])
      modifies `objs, `jvi, `jvf
      ensures Valid() && (old(AllSettled()) ==> AllSettled()) && !Indexed(o)
      ensures objs == old(objs)[o := Recycled(old(objs)[o])]
    {
      DeleteKeepsIndex(list[0], objs, jvi, jvf, o);
      if AllSettled() {
        DeleteKeepsSettled(list[0], objs, jvi, failed, o);
        ChangeKeepsSettled(list[0], objs, Deleted(jvi, o), failed, o, Recycled(objs[o]));
      }
      HashrefDelete(o);
      ChangeKeepsIndex(list[0], objs, jvi, jvf, o, Recycled(objs[o]));
      assert Rests(objs, o);
      ChangeKeepsList(list, objs, o, Recycled(objs[o]));
      Reset(o);
    }

    method Reset(o: Oid)
      requires o in objs
      modifies `objs
      ensures objs == old(objs)[o := Recycled(old(objs)[o])]
    {
      var j := objs[o];
      if j.open {
        j := j.(decoder := None, fmt := NO_FMT);
      }
      objs := objs[o := j.(id := 0, lru := 0, used := false, open := false, valid := false, pending := false, info := false, frame := -1)];
    }

    /**
      new_video_object: an object for the id that is valid and still closed.  It is entered in
      both indexes if there was none for this id.
      */
    method NewVideoObject(id: nat, fmt: int, now: int, o: Oid) returns (r: Option<Oid>)
      requires Valid() && AllSettled() && o !in objs && ClockOk(now) && now >= 600 && id > 0
      modifies `list, `next, `objs, `jvi, `jvf
      ensures Valid()
      ensures list == old(list) || (list == old(list) + [o] && |list| <= maxObjects)
      ensures r.None? <==> old(|list|) >= maxObjects && forall x :: x in old(objs) ==> Busy(old(objs)[x])
      ensures r.None? ==> AllSettled() && objs == old(objs) && list == old(list)
      ensures ClockOk(now)
      ensures r.Some? ==> r.value in objs && Fresh(objs[r.value], id, fmt)
      ensures r.Some? ==> id in jvi && SettledBut(r.value)
      ensures forall x :: x in old(objs) && old(objs)[x].lru + 600 > now && r != Some(x) ==> x in objs && objs[x] == old(objs)[x]
      ensures forall x :: x in old(objs) && Busy(old(objs)[x]) ==> x in objs && objs[x] == old(objs)[x] && r != Some(x)
    {
      r := GetJvo(now, o);
      if r.Some? {
        Claim(r.value, id, fmt);
      }
    }

    predicate Fresh(j: Jvo, id: nat, fmt: int)
    {
      j.valid && !j.open && !j.used && !j.pending && !j.info && j.id == id && j.fmt == WantedFmt(fmt)
    }

    /** All are settled but for one object, about to be opened. */
    ghost predicate SettledBut(o: Oid)
      reads this
    {
      list != [] && SettledExcept(list[0], objs, jvi, failed, o)
    }

    method Claim(o: Oid, id: nat, fmt: int)
      requires Valid() && AllSettled() && o in objs && Blank(objs[o]) && !Indexed(o) && id > 0
      modifies `objs, `jvi, `jvf
      ensures Valid() && id in jvi && SettledBut(o)
      ensures objs == old(objs)[o := Claimed(old(objs)[o], id, fmt)]
    {
      ChangeKeepsIndex(list[0], objs, jvi, jvf, o, Claimed(objs[o], id, fmt));
      assert Rests(objs, o);
      ChangeKeepsList(list, objs, o, Claimed(objs[o], id, fmt));
      SettledButNew(list[0], objs, jvi, failed, o, Claimed(objs[o], id, fmt), id);
      objs := objs[o := objs[o].(id := id, fmt := if fmt == NO_FMT then DEFAULT_FMT else fmt, frame := -1, valid := true)];
      if id !in jvi {
        Enter(o, id);
      }
    }

    method Enter(o: Oid, id: nat)
      requires Valid() && o in objs && objs[o].valid && objs[o].id == id && id !in jvi
      modifies `jvi, `jvf
      ensures Valid() && jvi == old(jvi)[id := o]
    {
      NewEntry(list[0], objs, jvi, jvf, o);
      jvi := jvi[id := o];
      jvf := jvf[(id, objs[o].fmt) := o];
    }

    /** What a request may find: a valid object at rest for this id, in a format that will do. */
    predicate Fits(j: Jvo, id: nat, fmt: int)
    {
      j.valid && j.id == id && (fmt == NO_FMT || j.fmt == fmt || (j.fmt == NO_FMT && !j.open))
    }

    /** A free object that will do, and if it is closed, then for a format or a file for which it may be opened. */
    ghost predicate Ready(o: Oid, id: nat, fmt: int)
      reads this
    {
      && o in objs && Fits(objs[o], id, fmt) && !Busy(objs[o])
      && (In(jvi, id, o) && !objs[o].open ==> id in failed || objs[o].fmt == WantedFmt(fmt))
    }

    predicate Obtained(j: Jvo, id: nat, fmt: int, frame: int)
    {
      && j.id == id && j.open && j.valid && (fmt != NO_FMT ==> j.fmt == fmt)
      && if frame < 0 then j.info else j.used
    }

    /** The locked region of dctrl_get_decoder; `file` is the file if my_open_movie can open it. */
    method Attempt(o: Oid, id: nat, fmt: int, frame: int, now: int, file: Option<File>) returns (ok: bool)
      requires Valid() && SettledBut(o) && Ready(o, id, fmt)
      requires file.Some? ==> id !in failed
      modifies `objs, `failed
      ensures Valid() && AllSettled() && (old(ClockOk(now)) ==> ClockOk(now))
      ensures o in objs && objs == old(objs)[o := objs[o]]
      ensures ok ==> Obtained(objs[o], id, fmt, frame) && failed == old(failed)
      ensures !ok ==> file.None? && !old(objs[o]).open && failed == old(failed) + {id}
      ensures ok && !old(objs[o].open) ==> JustOpened(objs[o], fmt, now, file)
    {
      var j := objs[o];
      assert Rests(objs, o);
      var a := AttemptResult(j, frame);
      j := AfterAttempt(j, frame, now);
      ok := true;
      if a.MustOpen? {
        if file.Some? {
          j := AfterOpen(j, fmt, frame, file.value);
        } else {
          j := AfterOpenFailed(j);
          failed := failed + {id};
          ok := false;
        }
      }
      SameKeyKeepsIndex(list[0], objs, jvi, jvf, o, j);
      ChangeKeepsList(list, objs, o, j);
      assert forall k :: ById(list[0], objs, jvi, k) ==> k in jvi && jvi[k] == o ==> k == id;
      NowSettled(list[0], objs, jvi, old(failed), o, j, failed);
      objs := objs[o := j];
    }

    /**
      dctrl_get_decoder: a decoder for the file, open in the wanted format, for information or
      for exclusive use.  Error 500 means that the file could not be opened, 503 that all
      decoders are in use.
      */
    method GetDecoder(id: nat, fmt: int, frame: int, now: int, o: Oid, file: Option<File>) returns (r: Option<Oid>, err: int)
      requires Valid() && AllSettled() && o !in objs && ClockOk(now) && now >= 600 && id > 0
      // an id whose file could not be opened is released, and not issued again
      requires file.Some? ==> id !in failed
      modifies this
      ensures Valid() && AllSettled() && ClockOk(now)
      ensures list == old(list) || (list == old(list) + [o] && |list| <= maxObjects)
      ensures r.Some? ==> err == 0 && r.value in objs && Obtained(objs[r.value], id, fmt, frame)
      ensures r.Some? && frame >= 0 && r.value in old(objs) ==> !Busy(old(objs)[r.value])
      ensures r.None? ==> err == 503 || (err == 500 && file.None? && id in failed)
      ensures err == 503 ==> old(|list|) >= maxObjects && forall x :: x in old(objs) ==> Busy(old(objs)[x])
      ensures forall x :: x in old(objs) && Busy(old(objs)[x]) && Some(x) != r ==> x in objs && objs[x] == old(objs)[x]
      ensures err != 500 ==> forall x :: x in old(objs) && old(objs)[x].lru + 600 > now && Some(x) != r ==> x in objs && objs[x] == old(objs)[x]
      ensures r.Some? && !(r.value in old(objs) && old(objs)[r.value].open) ==> JustOpened(objs[r.value], fmt, now, file)
    {
      var jvo: Option<Oid> := None;
      if frame < 0 {
        var done;
        jvo, done := Known(id, fmt, now);
        if done {
          return jvo, 0;
        }
      }
      r, err := Obtain(jvo, id, fmt, frame, now, o, file);
    }

    /** The main loop: jvo is what the index had, if it was asked. */
    method Obtain(known: Option<Oid>, id: nat, fmt: int, frame: int, now: int, o: Oid, file: Option<File>) returns (r: Option<Oid>, err: int)
      requires Valid() && AllSettled() && o !in objs && ClockOk(now) && now >= 600 && id > 0
      requires file.Some? ==> id !in failed
      requires known.Some? ==> Ready(known.value, id, fmt) && SettledBut(known.value)
      modifies this
      ensures Valid() && AllSettled() && ClockOk(now)
      ensures list == old(list) || (list == old(list) + [o] && |list| <= maxObjects)
      ensures r.Some? ==> err == 0 && r.value in objs && Obtained(objs[r.value], id, fmt, frame)
      ensures r.Some? && r.value in old(objs) ==> !Busy(old(objs)[r.value])
      ensures r.None? ==> err == 503 || (err == 500 && file.None? && id in failed)
      ensures err == 503 ==> old(|list|) >= maxObjects && forall x :: x in old(objs) ==> Busy(old(objs)[x])
      ensures forall x :: x in old(objs) && Busy(old(objs)[x]) && Some(x) != r ==> x in objs && objs[x] == old(objs)[x]
      ensures err != 500 ==> forall x :: x in old(objs) && old(objs)[x].lru + 600 > now && Some(x) != r ==> x in objs && objs[x] == old(objs)[x]
      ensures r.Some? && !(r.value in old(objs) && old(objs)[r.value].open) ==> JustOpened(objs[r.value], fmt, now, file)
    {
      var jvo := known;
      if jvo.None? {
        jvo := Pick(id, fmt, frame, now, o);
      }
      if jvo.None? {
        return None, 503;
      }
      var ok := Attempt(jvo.value, id, fmt, frame, now, file);
      if ok {
        return jvo, 0;
      }
      r, err := None, 500;
    }

    /** Opened just now for this file, in the wanted format or else as RGB24. */
    predicate JustOpened(j: Jvo, fmt: int, now: int, file: Option<File>)
    {
      && j.lru == now && j.fmt == (if fmt == NO_FMT then DEFAULT_FMT else fmt)
      && file.Some? && j.decoder == Some(Decoder(file.value, j.fmt))
    }

    /** dctrl_release_decoder, dctrl_release_infolock: the last information lock takes the flag away. */
    method Release(o: Oid, info: bool)
      requires Valid() && AllSettled() && o in objs && if info then objs[o].info else objs[o].used
      modifies `objs
      ensures Valid() && AllSettled()
      ensures var j := old(objs[o]);
        objs == old(objs)[o := if info then j.(refcnt := j.refcnt - 1, info := j.refcnt > 1) else j.(used := false)]
    {
      assert Rests(objs, o);
      var j := if info then AfterReleaseInfo(objs[o]) else AfterReleaseDecoder(objs[o]);
      SameKeyKeepsIndex(list[0], objs, jvi, jvf, o, j);
      ChangeKeepsList(list, objs, o, j);
      ChangeKeepsSettled(list[0], objs, jvi, failed, o, j);
      objs := objs[o := j];
    }

    /** xdctrl_decode: the holder decodes a frame. */
    method Decode(o: Oid, frame: int, now: int)
      requires Valid() && AllSettled() && ClockOk(now) && o in objs && objs[o].used
      modifies `objs
      ensures Valid() && AllSettled() && ClockOk(now)
      ensures objs == old(objs)[o := old(objs[o]).(lru := now, frame := frame)]
    {
      assert Rests(objs, o);
      var j := objs[o].(lru := now, frame := frame);
      SameKeyKeepsIndex(list[0], objs, jvi, jvf, o, j);
      ChangeKeepsList(list, objs, o, j);
      ChangeKeepsSettled(list[0], objs, jvi, failed, o, j);
      objs := objs[o := j];
    }

    /** dctrl_cache_clear, as far as it is about decoder objects */
    method CacheClear(f: nat, id: int, now: int)
      requires Good(now) && f <= 3
      requires f == 3 ==> forall o :: o in objs ==> !Busy(objs[o])
      modifies `list, `next, `objs, `jvi, `jvf
      ensures Good(now) && |list| <= old(|list|) && list[0] == old(list[0])
    {
      var _, _, _, _, _ := ClearJvo(f, id, -1, now);
    }

    /** The state between any two whole operations, with the clock at `now`. */
    ghost predicate Good(now: int)
      reads this
    {
      Valid() && AllSettled() && ClockOk(now) && now >= 600
    }

    /** A free object for the request, or else a new one. */
    method Pick(id: nat, fmt: int, frame: int, now: int, o: Oid) returns (r: Option<Oid>)
      requires Valid() && AllSettled() && o !in objs && ClockOk(now) && now >= 600 && id > 0
      modifies `list, `next, `objs, `jvi, `jvf
      ensures Valid() && ClockOk(now) && (if r.Some? then SettledBut(r.value) else AllSettled())
      ensures list == old(list) || (list == old(list) + [o] && |list| <= maxObjects)
      ensures r.Some? ==> Ready(r.value, id, fmt)
      ensures r.Some? && objs[r.value].open ==> r.value in old(objs) && old(objs)[r.value].open
      ensures r.Some? && r.value in old(objs) ==> !Busy(old(objs)[r.value])
      ensures r.None? <==> old(|list|) >= maxObjects && forall x :: x in old(objs) ==> Busy(old(objs)[x])
      ensures forall x :: x in old(objs) && (Busy(old(objs)[x]) || old(objs)[x].lru + 600 > now) && Some(x) != r ==> x in objs && objs[x] == old(objs)[x]
    {
      var timeout := 40;
      r := PickOnce(id, fmt, frame, now, o);
      timeout := timeout - 1;
      while timeout > 0 && r.None?
        invariant Valid() && ClockOk(now) && (if r.Some? then SettledBut(r.value) else AllSettled())
        invariant list == old(list) || (list == old(list) + [o] && |list| <= maxObjects)
        invariant r.Some? ==> Ready(r.value, id, fmt)
        invariant r.Some? && objs[r.value].open ==> r.value in old(objs) && old(objs)[r.value].open
        invariant r.Some? && r.value in old(objs) ==> !Busy(old(objs)[r.value])
        invariant r.None? <==> old(|list|) >= maxObjects && forall x :: x in old(objs) ==> Busy(old(objs)[x])
        invariant r.None? ==> objs == old(objs) && list == old(list)
        invariant forall x :: x in old(objs) && (Busy(old(objs)[x]) || old(objs)[x].lru + 600 > now) && Some(x) != r ==> x in objs && objs[x] == old(objs)[x]
      {
        r := PickOnce(id, fmt, frame, now, o);
        timeout := timeout - 1;
      }
    }

    method PickOnce(id: nat, fmt: int, frame: int, now: int, o: Oid) returns (r: Option<Oid>)
      requires Valid() && AllSettled() && o !in objs && ClockOk(now) && now >= 600 && id > 0
      modifies `list, `next, `objs, `jvi, `jvf
      ensures Valid() && ClockOk(now) && (if r.Some? then SettledBut(r.value) else AllSettled())
      ensures list == old(list) || (list == old(list) + [o] && |list| <= maxObjects)
      ensures r.Some? ==> Ready(r.value, id, fmt)
      ensures r.Some? && objs[r.value].open ==> r.value in old(objs) && old(objs)[r.value].open
      ensures r.Some? && r.value in old(objs) ==> !Busy(old(objs)[r.value])
      ensures r.None? <==> old(|list|) >= maxObjects && forall x :: x in old(objs) ==> Busy(old(objs)[x])
      ensures r.None? ==> objs == old(objs) && list == old(list)
      ensures forall x :: x in old(objs) && (Busy(old(objs)[x]) || old(objs)[x].lru + 600 > now) && Some(x) != r ==> x in objs && objs[x] == old(objs)[x]
    {
      r := Test(id, fmt, frame, now);
      if r.Some? {
        assert Rests(objs, r.value) && SettledAt(list[0], objs, jvi, failed, id);
        SettledForOne(list[0], objs, jvi, failed, r.value);
      } else {
        r := NewVideoObject(id, fmt, now, o);
      }
    }

    /** The way of a request for information through the index. */
    method Known(id: nat, fmt: int, now: int) returns (r: Option<Oid>, done: bool)
      requires Valid() && AllSettled() && ClockOk(now) && id > 0
      modifies `objs
      ensures Valid() && AllSettled() && ClockOk(now)
      ensures done ==> r.Some? && r.value in objs && Obtained(objs[r.value], id, fmt, -1) && objs == old(objs)[r.value := objs[r.value]]
      ensures done ==> r.value in old(objs) && old(objs)[r.value].open
      ensures !done ==> objs == old(objs) && (r.Some? ==> Ready(r.value, id, fmt) && SettledBut(r.value))
    {
      done := false;
      r := LookUp(id, fmt);
      if r.Some? {
        done := TryInfo(r.value, id, fmt);
        SettledForOne(list[0], objs, jvi, failed, r.value);
      }
    }

    method LookUp(id: nat, fmt: int) returns (r: Option<Oid>)
      requires Valid()
      ensures r.Some? ==> r.value in objs
      ensures if fmt == NO_FMT then r == (if id in jvi then Some(jvi[id]) else None)
              else r == if (id, fmt) in jvf then Some(jvf[(id, fmt)]) else None
    {
      r := None;
      assert ById(list[0], objs, jvi, id) && ByFormat(objs, jvf, (id, fmt));
      if fmt == NO_FMT {
        if id in jvi {
          r := Some(jvi[id]);
        }
      } else if (id, fmt) in jvf {
        r := Some(jvf[(id, fmt)]);
      }
    }

    /** A request for information looks in the index first; a decoder in use will do. */
    method TryInfo(o: Oid, id: nat, fmt: int) returns (done: bool)
      requires Valid() && AllSettled() && o in objs && id > 0
      requires if fmt == NO_FMT then In(jvi, id, o) else In(jvf, (id, fmt), o)
      modifies `objs
      ensures Valid() && AllSettled() && objs == old(objs)[o := objs[o]] && objs[o].lru == old(objs)[o].lru
      ensures done ==> Obtained(objs[o], id, fmt, -1) && old(objs[o].open)
      ensures !done ==> objs == old(objs) && Fits(objs[o], id, fmt) && !Busy(objs[o]) && In(jvi, id, o) && id in failed
    {
      var j := objs[o];
      assert BothOrNeither(objs, jvi, jvf, o) && ById(list[0], objs, jvi, id) && ByFormat(objs, jvf, (id, fmt));
      assert SettledAt(list[0], objs, jvi, failed, id) && Rests(objs, o);
      done := j.open && j.valid && !j.pending;
      if done {
        SameKeyKeepsIndex(list[0], objs, jvi, jvf, o, AddInfo(j));
        ChangeKeepsList(list, objs, o, AddInfo(j));
        ChangeKeepsSettled(list[0], objs, jvi, failed, o, AddInfo(j));
        objs := objs[o := AddInfo(j)];
      }
    }

    // -------------------------------------------------------------------------------
    // Any sequence of operations

    /** Whoever uses the list may do this now. */
    predicate CanDo(op: Op)
      reads `objs, `failed
    {
      match op
      case Request(id, _, _, o, file) => id > 0 && o !in objs && (file.Some? ==> id !in failed)
      case Render(o, _) => o in objs && objs[o].used
      case LetGo(o, info) => o in objs && if info then objs[o].info else objs[o].used
      case Flush(f, _) => f <= 3 && (f == 3 ==> forall o | o in objs :: !Busy(objs[o]))
      case Wait(_) => true
    }

    method Perform(op: Op, now: int) returns (later: int)
      requires Good(now) && CanDo(op)
      modifies this
      ensures later >= now && Good(later)
      ensures |list| <= if old(|list|) > maxObjects then old(|list|) else maxObjects
    {
      later := now;
      match op
      case Request(id, fmt, frame, o, file) =>
        var _, _ := GetDecoder(id, fmt, frame, now, o, file);
      case Render(o, frame) => Decode(o, frame, now);
      case LetGo(o, info) => Release(o, info);
      case Flush(f, id) => CacheClear(f, id, now);
      case Wait(seconds) => later := now + seconds;
    }

    /**
      Whatever the operations and their order (those that nobody could ask for are passed
      over), the list and both indexes stay consistent, and the list never exceeds
      max(1, max_objects).
      */
    method PerformAll(ops: seq<Op>, start: int) returns (now: int)
      requires Good(start)
      modifies this
      ensures now >= start && Good(now)
      ensures |list| <= if old(|list|) > maxObjects then old(|list|) else maxObjects
    {
      now := start;
      var i := 0;
      while i < |ops|
        invariant 0 <= i <= |ops| && now >= start && Good(now)
        invariant |list| <= if old(|list|) > maxObjects then old(|list|) else maxObjects
      {
        if CanDo(ops[i]) {
          now := Perform(ops[i], now);
        }
        i := i + 1;
      }
    }
  }

  /**
    new_video_object claims the initial root first.  If the clock shows less than 600, the
    garbage collection passes the root over, and it is entered under its new id while it is
    still in the indexes under id 0.
    */
  lemma FirstClaimIsConsistentIff(root: Oid, id: nat, fmt: int, now: int)
    requires id > 0
    ensures var p, objs := Purge(1, -1, 600, now, root), map[root := NEW_JVO];
      var objs1 := SurvivingObjects(p, objs);
      && root in objs1 && Blank(objs1[root])
      && var j := Claimed(objs1[root], id, fmt);
         (IndexOk(root, objs1[root := j], SurvivingIndex(p, map[0 := root], objs)[id := root],
                  SurvivingIndex(p, map[(0, NO_FMT) := root], objs)[(id, j.fmt) := root])
          <==> now >= 600)
  {
    var p, objs := Purge(1, -1, 600, now, root), map[root := NEW_JVO];
    var objs1 := SurvivingObjects(p, objs);
    var j := Claimed(objs1[root], id, fmt);
    var objs2 := objs1[root := j];
    var jvi, jvf := SurvivingIndex(p, map[0 := root], objs)[id := root], SurvivingIndex(p, map[(0, NO_FMT) := root], objs)[(id, j.fmt) := root];
    if now < 600 {
      assert 0 in jvi;
      assert !ById(root, objs2, jvi, 0);
    } else {
      assert jvi == map[id := root] && jvf == map[(id, j.fmt) := root];
      assert In(jvi, id, root) && In(jvf, (id, j.fmt), root);
      assert forall k :: ById(root, objs2, jvi, k);
    }
  }

  /** An object at rest may be put in the place of another. */
  lemma ChangeKeepsList(list: seq<Oid>, objs: map<Oid, Jvo>, o: Oid, j: Jvo)
    requires ListOk(list, objs) && o in objs && AtRest(j)
    ensures ListOk(list, objs[o := j])
  {
    var objs' := objs[o := j];
    forall x ensures Rests(objs', x) {
      assert Rests(objs, x);
    }
  }

  lemma NewInList(list: seq<Oid>, objs: map<Oid, Jvo>, o: Oid)
    requires ListOk(list, objs) && o !in objs
    ensures ListOk(list + [o], objs[o := NEW_JVO])
  {
    assert (list + [o])[..|list|] == list;
    var objs' := objs[o := NEW_JVO];
    forall x ensures Rests(objs', x) {
      assert Rests(objs, x);
    }
  }

  /** An object may change as long as its id stays, and its format if it is indexed. */
  lemma SameKeyKeepsIndex(root: Oid, objs: map<Oid, Jvo>, jvi: map<nat, Oid>, jvf: map<(nat, int), Oid>, o: Oid, j: Jvo)
    requires IndexOk(root, objs, jvi, jvf) && o in objs && j.id == objs[o].id && j.valid
    requires In(jvi, j.id, o) ==> j.fmt == objs[o].fmt
    ensures IndexOk(root, objs[o := j], jvi, jvf)
  {
    var objs' := objs[o := j];
    assert BothOrNeither(objs, jvi, jvf, o);
    forall k ensures ById(root, objs', jvi, k) {
      assert ById(root, objs, jvi, k);
    }
    forall k ensures ByFormat(objs', jvf, k) {
      assert ByFormat(objs, jvf, k) && ById(root, objs, jvi, k.0);
    }
    assert ByFormat(objs, jvf, (j.id, j.fmt));
    forall x ensures BothOrNeither(objs', jvi, jvf, x) {
      assert BothOrNeither(objs, jvi, jvf, x);
    }
  }

  /** Nor does a change unsettle anything that leaves the object open, or is about one that is not indexed. */
  lemma ChangeKeepsSettled(root: Oid, objs: map<Oid, Jvo>, jvi: map<nat, Oid>, failed: set<nat>, o: Oid, j: Jvo)
    requires Settled(root, objs, jvi, failed)
    requires j.open || forall k :: k in jvi ==> jvi[k] != o
    ensures Settled(root, objs[o := j], jvi, failed)
  {
    var objs' := objs[o := j];
    forall k ensures SettledAt(root, objs', jvi, failed, k) {
      assert SettledAt(root, objs, jvi, failed, k);
    }
  }

  lemma DeleteKeepsSettled(root: Oid, objs: map<Oid, Jvo>, jvi: map<nat, Oid>, failed: set<nat>, o: Oid)
    requires Settled(root, objs, jvi, failed)
    ensures Settled(root, objs, Deleted(jvi, o), failed)
  {
    forall k ensures SettledAt(root, objs, Deleted(jvi, o), failed, k) {
      assert SettledAt(root, objs, jvi, failed, k);
    }
  }

  ghost predicate SettledExcept(root: Oid, objs: map<Oid, Jvo>, jvi: map<nat, Oid>, failed: set<nat>, o: Oid)
  {
    forall k {:trigger SettledAt(root, objs, jvi, failed, k)} :: In(jvi, k, o) || SettledAt(root, objs, jvi, failed, k)
  }

  /** Once the one object is open, or its file has failed to open, all are settled. */
  lemma NowSettled(root: Oid, objs: map<Oid, Jvo>, jvi: map<nat, Oid>, failed: set<nat>, o: Oid, j: Jvo, failed': set<nat>)
    requires SettledExcept(root, objs, jvi, failed, o) && failed <= failed'
    requires forall k :: k in jvi && jvi[k] == o ==> j.open || k in failed'
    ensures Settled(root, objs[o := j], jvi, failed')
  {
    var objs' := objs[o := j];
    forall k ensures SettledAt(root, objs', jvi, failed', k) {
      assert In(jvi, k, o) || SettledAt(root, objs, jvi, failed, k);
    }
  }

  lemma SettledForOne(root: Oid, objs: map<Oid, Jvo>, jvi: map<nat, Oid>, failed: set<nat>, o: Oid)
    requires Settled(root, objs, jvi, failed)
    ensures SettledExcept(root, objs, jvi, failed, o)
  {
  }

  /** A new object may be unsettled, and be entered in the index. */
  lemma SettledButNew(root: Oid, objs: map<Oid, Jvo>, jvi: map<nat, Oid>, failed: set<nat>, o: Oid, j: Jvo, id: nat)
    requires Settled(root, objs, jvi, failed)
    ensures SettledExcept(root, objs[o := j], jvi, failed, o)
    ensures SettledExcept(root, objs[o := j], jvi[id := o], failed, o)
  {
    var objs', jvi' := objs[o := j], jvi[id := o];
    forall k {:trigger SettledAt(root, objs', jvi, failed, k)} ensures In(jvi, k, o) || SettledAt(root, objs', jvi, failed, k) {
      assert SettledAt(root, objs, jvi, failed, k);
    }
    forall k {:trigger SettledAt(root, objs', jvi', failed, k)} ensures In(jvi', k, o) || SettledAt(root, objs', jvi', failed, k) {
      assert SettledAt(root, objs, jvi, failed, k);
    }
  }

  /** An object whose id is not in the index can be entered in both. */
  lemma NewEntry(root: Oid, objs: map<Oid, Jvo>, jvi: map<nat, Oid>, jvf: map<(nat, int), Oid>, o: Oid)
    requires IndexOk(root, objs, jvi, jvf) && o in objs && objs[o].valid && objs[o].id !in jvi
    ensures IndexOk(root, objs, jvi[objs[o].id := o], jvf[(objs[o].id, objs[o].fmt) := o])
  {
    var jvi', jvf' := jvi[objs[o].id := o], jvf[(objs[o].id, objs[o].fmt) := o];
    forall k ensures ById(root, objs, jvi', k) {
      assert ById(root, objs, jvi, k);
    }
    forall k ensures ByFormat(objs, jvf', k) {
      assert ByFormat(objs, jvf, k);
    }
    forall x ensures BothOrNeither(objs, jvi', jvf', x) {
      assert BothOrNeither(objs, jvi, jvf, x);
    }
  }

  /** The garbage collection of getjvo changes nothing about busy objects, and makes nobody busy. */
  lemma GarbageIs(p: Purge, objs: map<Oid, Jvo>)
    requires p.f == 1 && p.id == -1 && p.age == 600 && forall o :: o in objs ==> objs[o].lru <= p.now
    ensures var objs' := SurvivingObjects(p, objs);
      && objs'.Keys == objs.Keys
      && (forall o :: o in objs' ==> if Busy(objs[o]) then objs'[o] == objs[o] else !Busy(objs'[o]))
      && (forall o :: o in objs' && objs[o].lru + 600 > p.now ==> objs'[o] == objs[o])
      && (forall o :: o in objs' ==> objs'[o].lru <= p.now || (Blank(objs'[o]) && objs'[o].lru == 0))
  {
  }

  /** Modes 0 and 1 free nothing. */
  lemma {:induction false} NobodyFreed(p: Purge, list: seq<Oid>, objs: map<Oid, Jvo>)
    requires p.f <= 1
    ensures Survivors(p, list, objs) == list
  {
    if list != [] {
      NobodyFreed(p, list[..|list| - 1], objs);
    }
  }

  /** After the garbage collection of getjvo, no object without flags is in an index. */
  lemma BlankIsNotIndexed(p: Purge, objs: map<Oid, Jvo>, jvi: map<nat, Oid>, jvf: map<(nat, int), Oid>, o: Oid)
    requires p.f == 1 && p.id == -1 && p.age == 600 && p.now >= 600 && IndexOk(p.root, objs, jvi, jvf)
    requires o in SurvivingObjects(p, objs) && Blank(SurvivingObjects(p, objs)[o])
    ensures forall k :: k in SurvivingIndex(p, jvi, objs) ==> jvi[k] != o
    ensures forall k :: k in SurvivingIndex(p, jvf, objs) ==> jvf[k] != o
  {
    var objs' := SurvivingObjects(p, objs);
    SweepKeepsIndex(p, objs, jvi, jvf);
    forall k | k in SurvivingIndex(p, jvi, objs) ensures jvi[k] != o {
      assert ById(p.root, objs', SurvivingIndex(p, jvi, objs), k);
    }
    assert BothOrNeither(objs', SurvivingIndex(p, jvi, objs), SurvivingIndex(p, jvf, objs), o);
    forall k | k in SurvivingIndex(p, jvf, objs) ensures jvf[k] != o {
      assert ByFormat(objs', SurvivingIndex(p, jvf, objs), k);
    }
  }
}
