/**
  The functions of libharvid/frame_cache.c that run under the cache lock, as methods of the
  cache: each is one step of the protocol in module FrameCache.

  `lines` maps the address of a line to its contents, and `order` is the order in which
  HASH_ITER visits them.
  */
module FrameStore {
  import opened Wrappers
  import opened Sequences
  import opened FrameCache

  /**
    A step as the moving thread sees it: from `before`, action `a` takes the thread from `pc`
    to `pc'` and leaves the lines `after`.
    */
  ghost predicate Steps(before: map<Lid, Line>, size: nat, now: int, pc: Pc, a: Action, after: map<Lid, Line>, pc': Pc)
  {
    var s := Cache(before, size, now, map[0 := pc]);
    && Enabled(s, 0, a)
    && LinesAfter(s, EffectOf(s, 0, a).change) == after
    && EffectOf(s, 0, a).pc == pc'
  }

  /** Whatever the other threads do, such a step is a step of the protocol. */
  lemma StepsAnywhere(s: Cache, t: Tid, a: Action, after: map<Lid, Line>, pc': Pc)
    requires t in s.pcs && !a.Tick? && Steps(s.lines, s.size, s.now, s.pcs[t], a, after, pc')
    ensures Enabled(s, t, a) && Do(s, t, a) == s.(lines := after, pcs := s.pcs[t := pc'])
  {
    var solo := Cache(s.lines, s.size, s.now, map[0 := s.pcs[t]]);
    assert Enabled(solo, 0, a);
    assert EffectOf(solo, 0, a) == EffectOf(s, t, a);
  }

  class Store {
    var lines: map<Lid, Line>
    var order: seq<Lid>
    var size: nat
    var hits: nat
    var misses: nat

    ghost predicate Valid()
      reads this
    {
      && NoRepeats(order)
      && forall l :: l in order <==> l in lines
    }

    /** vcache_create */
    constructor ()
      ensures Valid() && lines == map[] && size == 48
    {
      lines, order, size, hits, misses := map[], [], 48, 0, 0;
    }

    /** testclwh: a line with this key, the same in all its parts, exactly if there is one. */
    method Find(key: Key) returns (r: Option<Lid>)
      requires Valid()
      ensures r.Some? ==> r.value in lines && lines[r.value].key == key
      ensures r.None? ==> forall l :: l in lines ==> lines[l].key != key
      ensures r.None? ==> Steps(lines, size, 0, Pc.Find(key), Miss, lines, Get(key))
      ensures r.Some? ==> Steps(lines, size, 0, Pc.Find(key), Hit(r.value), lines, Pc.Pin(key, r.value))
    {
      var i := 0;
      while i < |order|
        invariant 0 <= i <= |order|
        invariant forall j :: 0 <= j < i ==> lines[order[j]].key != key
      {
        if lines[order[i]].key == key {
          return Some(order[i]);
        }
        i := i + 1;
      }
      r := None;
    }

    /** fc_readcl: pin a line that was found, unless it has been invalidated meanwhile. */
    method PinFound(ghost key: Key, l: Lid, now: int) returns (ok: bool)
      requires Valid() && l in lines
      modifies this
      ensures Valid() && size == old(size) && order == old(order)
      ensures Steps(old(lines), size, now, Pc.Pin(key, l), PinLine, lines, if ok then Hold(key, l, 0) else Get(key))
      ensures ok == old(lines)[l].valid
      ensures l in lines && lines[l].refcnt == old(lines)[l].refcnt + (if ok then 1 else 0) && (ok ==> lines[l].inuse)
      ensures lines == old(lines)[l := lines[l]] && lines[l].key == old(lines)[l].key && lines[l].buf == old(lines)[l].buf
    {
      ok := lines[l].valid;
      if ok {
        lines := lines[l := lines[l].(refcnt := lines[l].refcnt + 1, inuse := true, lru := now)];
        hits := hits + 1;
      }
    }

    /**
      getcl as coded, together with setting CLF_DECODING.  In a full cache it takes the first
      line without flags as it is; failing that, the least recently used line (the first of
      several) that is neither pinned nor being decoded, which it moves to the end and re-keys.
      `blank` is the address of a line allocated by calloc.
      */
    method GetLine(key: Key, now: int, blank: Lid) returns (r: Option<Lid>, ghost a: Action)
      requires Valid() && blank !in lines
      modifies this
      ensures Valid() && size == old(size)
      ensures Steps(old(lines), size, now, Get(key), a, lines, if r.Some? then Fill(key, r.value) else Get(key))
      ensures a == if r.None? then NoLine(false)
                   else if r == Some(blank) then NewLine(blank)
                   else if r.value in old(lines) && Unflagged(old(lines)[r.value]) then EarlyLine(r.value)
                   else ReuseLine(r.value)
      ensures a.EarlyLine? ==> order == old(order)
      ensures a.ReuseLine? ==> order == Dropped(old(order), r.value) + [r.value]
      ensures a.NewLine? ==> order == old(order) + [blank]
      ensures old(|lines|) < size ==> r == Some(blank) && lines == old(lines)[blank := lines[blank]]
      ensures old(|lines|) >= size ==> TakenFrom(old(lines), lines, now, key, r)
      ensures r.Some? ==> r.value in lines && lines[r.value].decoding && (!a.EarlyLine? ==> lines[r.value].key == key)
    {
      NoRepeatsCount(order, lines.Keys);
      if |order| < size {
        NoRepeatsAppend(order, blank);
        lines := lines[blank := NewLineFor(key).(decoding := true)];
        order := order + [blank];
        return Some(blank), NewLine(blank);
      }
      r, a := GetFromFull(key, now);
    }

    /**
      What getcl takes from a full cache: nothing exactly if every line is pinned, being decoded
      or from the future; else a line that is neither, and no other changes.  Unless a line has
      no flags at all, it is one that was not used for the longest time.
      */
    predicate TakenFrom(before: map<Lid, Line>, after: map<Lid, Line>, now: int, key: Key, r: Option<Lid>)
    {
      && (r.None? ==> after == before && forall m :: m in before ==> before[m].decoding || before[m].inuse || before[m].lru > now)
      && (r.Some? ==>
            && r.value in before && r.value in after && after == before[r.value := after[r.value]]
            && !before[r.value].decoding && !before[r.value].inuse
            && (before[r.value].valid || before[r.value].release ==>
                  forall m :: m in before && !before[m].decoding && !before[m].inuse ==> before[r.value].lru <= before[m].lru))
    }

    /** getcl when there is no room. */
    method GetFromFull(key: Key, now: int) returns (r: Option<Lid>, ghost a: Action)
      requires Valid() && |lines| >= size
      modifies `lines, `order
      ensures Valid() && (r.Some? ==> r.value in old(lines))
      ensures Steps(old(lines), size, now, Get(key), a, lines, if r.Some? then Fill(key, r.value) else Get(key))
      ensures a == if r.None? then NoLine(false)
                   else if Unflagged(old(lines)[r.value]) then EarlyLine(r.value)
                   else ReuseLine(r.value)
      ensures a.EarlyLine? ==> order == old(order)
      ensures a.ReuseLine? ==> order == Dropped(old(order), r.value) + [r.value]
      ensures TakenFrom(old(lines), lines, now, key, r)
      ensures r.Some? ==> r.value in lines && lines[r.value].decoding && (!a.EarlyLine? ==> lines[r.value].key == key)
    {
      var early, clru := ScanLines(now);
      if early.Some? {
        r, a := early, EarlyLine(early.value);
        lines := lines[early.value := lines[early.value].(decoding := true)];
        return;
      }
      if clru.None? {
        return None, NoLine(false);
      }
      var l := clru.value;
      r, a := Some(l), ReuseLine(l);
      TakeOver(l, key);
    }

    /** The loop of getcl, up to the first line without flags. */
    method ScanLines(now: int) returns (early: Option<Lid>, clru: Option<Lid>)
      requires Valid()
      ensures early.Some? ==> early.value in lines && Unflagged(lines[early.value])
      ensures early.None? ==> forall m :: m in lines ==> !Unflagged(lines[m])
      ensures early.None? && clru.None? ==> forall m :: m in lines && Loose(lines[m]) ==> lines[m].lru > now
      ensures clru.Some? ==> clru.value in lines && Loose(lines[clru.value]) && lines[clru.value].lru <= now
      ensures early.None? && clru.Some? ==> forall m :: m in lines && Loose(lines[m]) ==> lines[clru.value].lru <= lines[m].lru
    {
      early, clru := None, None;
      var lru := now + 1;
      var i := 0;
      while i < |order|
        invariant 0 <= i <= |order|
        invariant forall j :: 0 <= j < i ==> !Unflagged(lines[order[j]])
        invariant clru.None? ==> lru == now + 1
        invariant clru.Some? ==> clru.value in lines && Loose(lines[clru.value]) && lines[clru.value].lru == lru <= now
        invariant forall j :: 0 <= j < i && Loose(lines[order[j]]) ==> lru <= lines[order[j]].lru
      {
        var x := lines[order[i]];
        if !x.decoding && !x.inuse && !x.valid && !x.release {
          early := Some(order[i]);
          return;
        }
        if !x.decoding && !x.inuse && x.lru < lru {
          lru := x.lru;
          clru := Some(order[i]);
        }
        i := i + 1;
      }
      assert forall m :: m in lines ==> m in order;
    }

    /** HASH_DEL, re-key, HASH_ADD. */
    method TakeOver(l: Lid, key: Key)
      requires Valid() && l in lines
      modifies `lines, `order
      ensures Valid() && order == Dropped(old(order), l) + [l]
      ensures lines == old(lines)[l := Rekeyed(old(lines)[l], key).(decoding := true)]
      ensures l in lines && lines[l].key == key && lines[l].decoding && !lines[l].valid
      ensures var was := old(lines)[l];
        lines[l].buf == if (was.key.w, was.key.h, was.key.fmt) == (key.w, key.h, key.fmt) then was.buf else None
    {
      var x := lines[l];
      DroppedElements(order, l);
      NoRepeatsAppend(Dropped(order, l), l);
      order := Dropped(order, l);
      if x.buf.Some? && x.key.w == key.w && x.key.h == key.h && x.key.fmt == key.fmt {
        x := x.(decoding := false, inuse := false, valid := false, release := false);
      } else {
        x := Line(Key(0, 0, 0, 0, 0), false, false, false, false, 0, 0, None);
      }
      lines := lines[l := x.(key := key, lru := 0, decoding := true)];
      order := order + [l];
    }

    /** fc_readcl after dctrl_decode returned ds. */
    method Finish(ghost key: Key, l: Lid, ds: int, now: int)
      requires Valid() && l in lines
      modifies this
      ensures Valid() && size == old(size) && order == old(order)
      ensures Steps(old(lines), size, now, Filled(key, l, ds), Complete, lines, if ds > 0 then Idle else Hold(key, l, ds))
      ensures l in lines && lines == old(lines)[l := lines[l]] && lines[l].key == old(lines)[l].key && lines[l].buf == old(lines)[l].buf
      ensures !lines[l].decoding && (lines[l].valid <==> ds == 0)
      ensures lines[l].refcnt == old(lines)[l].refcnt + (if ds > 0 then 0 else 1) && (ds <= 0 ==> lines[l].inuse)
    {
      var x := lines[l];
      if ds != 0 {
        x := x.(valid := false, decoding := false);
        if ds < 0 {
          x := x.(inuse := true, refcnt := x.refcnt + 1);
        }
      } else {
        x := x.(lru := now, valid := true, inuse := true, decoding := false, refcnt := x.refcnt + 1);
        misses := misses + 1;
      }
      lines := lines[l := x];
    }

    /** vcache_release_buffer */
    method ReleaseBuffer(ghost key: Key, l: Lid, ghost err: int, ghost now: int)
      requires Valid() && l in lines
      modifies this
      ensures Valid() && size == old(size)
      ensures Steps(old(lines), size, now, Hold(key, l, err), Release, lines, Idle)
      ensures order == if FreedOnRelease(old(lines)[l]) then Dropped(old(order), l) else old(order)
      ensures l !in lines <==> old(lines)[l].refcnt <= 1 && old(lines)[l].release
      ensures if l in lines then lines == old(lines)[l := lines[l]] else lines == old(lines) - {l}
      ensures l in lines ==> lines[l].key == old(lines)[l].key && lines[l].buf == old(lines)[l].buf && lines[l].valid == old(lines)[l].valid
      ensures l in lines ==> lines[l].refcnt == old(lines)[l].refcnt - 1 && (lines[l].refcnt < 1 ==> !lines[l].inuse)
    {
      var x := lines[l].(refcnt := lines[l].refcnt - 1);
      if x.refcnt < 1 {
        x := x.(inuse := false);
        if x.release {
          DroppedElements(order, l);
          lines := lines - {l};
          order := Dropped(order, l);
          return;
        }
      }
      lines := lines[l := x];
    }

    /** vcache_invalidate_buffer */
    method InvalidateBuffer(ghost key: Key, l: Lid, ghost err: int, ghost now: int)
      requires Valid() && l in lines
      modifies this
      ensures Valid() && size == old(size) && order == old(order)
      ensures Steps(old(lines), size, now, Hold(key, l, err), Invalidate, lines, Hold(key, l, err))
    {
      lines := lines[l := lines[l].(release := true)];
    }

    /** clearcache with f == 0, as vcache_clear and get_id call it: a loop over all lines. */
    method ClearLines(id: int, ghost now: int)
      requires Valid()
      modifies this
      ensures Valid() && size == old(size)
      ensures Steps(old(lines), size, now, Idle, ClearAll(id), lines, Idle)
      ensures forall l :: l in lines ==> l in old(lines) && lines[l] == old(lines)[l]
      ensures forall l :: l in old(lines) ==>
        (l in lines <==> (id >= 0 && old(lines)[l].key.id != id) || old(lines)[l].decoding || old(lines)[l].inuse)
    {
      ghost var before := lines;
      var visit := order;
      var i := 0;
      while i < |visit|
        invariant 0 <= i <= |visit| && visit == old(order)
        invariant Valid() && size == old(size) && Swept(before, visit, i, id)
      {
        ClearLine(visit[i], id, before, visit, i);
        i := i + 1;
      }
      hits, misses := 0, 0;
      assert lines == map l | l in before && !ClearedAway(before[l], id) :: before[l];
    }

    /** The first i of the lines to visit have been cleared, as far as they may be. */
    ghost predicate Swept(before: map<Lid, Line>, visit: seq<Lid>, i: nat, id: int)
      reads `lines
      requires i <= |visit|
    {
      && (forall l :: l in lines ==> l in before && lines[l] == before[l])
      && (forall l :: l in before && !ClearedAway(before[l], id) ==> l in lines)
      && (forall j :: i <= j < |visit| ==> visit[j] in lines)
      && (forall j :: 0 <= j < i && visit[j] in lines ==> !ClearedAway(before[visit[j]], id))
      && NoRepeats(visit)
    }

    method ClearLine(l: Lid, id: int, ghost before: map<Lid, Line>, ghost visit: seq<Lid>, ghost i: nat)
      requires Valid() && i < |visit| && l == visit[i] && Swept(before, visit, i, id)
      modifies `lines, `order
      ensures Valid() && Swept(before, visit, i + 1, id)
    {
      if !(id >= 0 && lines[l].key.id != id) && !lines[l].decoding && !lines[l].inuse {
        DroppedElements(order, l);
        forall j | 0 <= j < |visit| && j != i ensures visit[j] != l {
          NoRepeatsAt(visit, i, j);
        }
        lines := lines - {l};
        order := Dropped(order, l);
      }
    }
  }
}
