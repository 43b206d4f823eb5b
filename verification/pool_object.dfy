/**
  The regions of libharvid/decoder_ctrl.c between locking and unlocking a decoder object, as
  methods of the object: each is one step of the protocol in module DecoderPool.
  */
module PoolObject {
  import opened Wrappers
  import opened DecoderObject
  import opened DecoderPool

  /** A pool with one object and one thread, which looks at it. */
  function Solo(o: Oid, j: Jvo, pc: Pc): Pool
  {
    Pool([o], map[o := j], 0, 0, None, None, map[0 := pc])
  }

  /**
    A step as its thread and its object see it: action `a` takes the thread from `pc` to `pc'`,
    and the object at `o` from `before` to `after`.
    */
  predicate Steps(o: Oid, before: Jvo, pc: Pc, a: Action, after: Jvo, pc': Pc)
  {
    var s := Solo(o, before, pc);
    && Enabled(s, 0, a)
    && Objs(s, EffectOf(s, 0, a).change) == map[o := after]
    && EffectOf(s, 0, a).pc == pc'
  }

  /** Whatever the other objects and threads are, such a step of a thread that points to the object is a step of the protocol. */
  lemma StepsAnywhere(s: Pool, t: Tid, a: Action, o: Oid, after: Jvo, pc': Pc)
    requires t in s.pcs && o in s.objs && Pointer(s.pcs[t]) == Some(o) && !a.BusyDec?
    requires Steps(o, s.objs[o], s.pcs[t], a, after, pc')
    ensures Enabled(s, t, a) && Do(s, t, a) == s.(objs := s.objs[o := after], pcs := s.pcs[t := pc'])
  {
    var solo := Solo(o, s.objs[o], s.pcs[t]);
    assert EffectOf(solo, 0, a).change == EffectOf(s, t, a).change;
    assert map[o := after][o] == after;
    assert s.objs[o := s.objs[o]] == s.objs;
  }

  /** So is the visit of an object that the sweep does not free. */
  lemma VisitAnywhere(s: Pool, t: Tid, job: Job, pos: nat, now: int, after: Jvo)
    requires t in s.pcs && s.pcs[t] == Sweep(job, pos, now) && pos < |s.list| && s.list[pos] in s.objs
    requires job.f <= 1 || pos == 0
    requires Steps(s.list[pos], s.objs[s.list[pos]], Sweep(job, 0, now), SweepNext, after, Sweep(job, 1, now))
    ensures Enabled(s, t, SweepNext)
    ensures Do(s, t, SweepNext) == s.(objs := s.objs[s.list[pos] := after], pcs := s.pcs[t := Sweep(job, pos + 1, now)])
  {
    var o := s.list[pos];
    assert map[o := after][o] == after;
    assert s.objs[o := s.objs[o]] == s.objs;
  }

  /** What a step makes of the object agrees with the holders and openers that there are after it. */
  lemma StepKeepsFlags(o: Oid, before: Jvo, pc: Pc, a: Action, after: Jvo, pc': Pc, infos: int, decoders: int, openers: int)
    requires Steps(o, before, pc, a, after, pc') && Consistent(before, infos, decoders, openers)
    requires Counted(pc, o, infos, decoders, openers)
    ensures ConsistentAfter(pc, pc', o, after, infos, decoders, openers)
  {
    var s := Solo(o, before, pc);
    var c := EffectOf(s, 0, a).change;
    assert map[o := after][o] == after;
    if c.Set? {
      assert c.o == o && c.j == after by {
        ChangeInRange(s, 0, a);
        assert Objs(s, c)[o] == c.j;
      }
      ChangedObject(s, 0, a, infos, decoders, openers);
    } else {
      OtherObjects(s, 0, a, o);
      ChangeInRange(s, 0, a);
    }
  }

  // What the steps are, in terms of the functions of DecoderObject

  lemma AttemptSteps(o: Oid, j: Jvo, req: Req, now: int)
    ensures Steps(o, j, Lock(req, o), LockObject(now), AfterAttempt(j, req.frame, now), NextPc(req, o, AttemptResult(j, req.frame)))
  {
  }

  lemma OpenSteps(o: Oid, j: Jvo, req: Req, file: File)
    ensures Steps(o, j, Opening(req, o), OpenOk(file), AfterOpen(j, req.fmt, req.frame, file),
                  Leave(req, if req.frame < 0 then HasInfo(o) else HasDecoder(o)))
  {
  }

  lemma VisitSteps(o: Oid, j: Jvo, job: Job, now: int)
    requires Skipped(job, j, now) || job.f < 3 || !Busy(j)
    ensures Steps(o, j, Sweep(job, 0, now), SweepNext, if Skipped(job, j, now) || Busy(j) then j else Cleared(j, job.f), Sweep(job, 1, now))
  {
  }

  lemma RecycleSteps(o: Oid, j: Jvo, req: Req, full: bool)
    ensures Steps(o, j, Recycle(req, o), RecycleLock(true, full), if Busy(j) then j else Recycled(j),
                  if !Busy(j) then Claim(req, o) else if full then Pick(req) else Append(req))
  {
  }

  lemma ClaimSteps(o: Oid, j: Jvo, req: Req)
    ensures Steps(o, j, Claim(req, o), ClaimLock(true), if Blank(j) then Claimed(j, req.id, req.fmt) else j,
                  if Blank(j) then Lock(req, o) else SweepWait(GcJob(req)))
  {
  }

  class JvObject {
    var id: nat
    var fmt: int
    var frame: int
    var lru: int
    var used: bool
    var open: bool
    var valid: bool
    var pending: bool
    var info: bool
    var refcnt: int
    var decoder: Option<Decoder>

    ghost function View(): Jvo
      reads this
    {
      Jvo(id, fmt, frame, lru, used, open, valid, pending, info, refcnt, decoder)
    }

    /** newjvo allocates zeroed memory and sets the format and the frame. */
    constructor ()
      ensures View() == NEW_JVO
    {
      id, fmt, frame, lru := 0, NO_FMT, -1, 0;
      used, open, valid, pending, info := false, false, false, false, false;
      refcnt, decoder := 0, None;
    }

    /** Information requests that found the object in the index. */
    method TryInfo(ghost o: Oid, req: Req) returns (ok: bool)
      modifies this
      ensures Steps(o, old(View()), InfoTry(req, o), InfoLock, View(), if ok then Leave(req, HasInfo(o)) else Lock(req, o))
      ensures ok == old(open && valid && !pending)
      ensures View() == if ok then old(View()).(refcnt := old(refcnt) + 1, info := true) else old(View())
    {
      ok := open && valid && !pending;
      if ok {
        refcnt := refcnt + 1;
        info := true;
      }
    }

    /** The locked region of the main loop of dctrl_get_decoder. */
    method TryAcquire(ghost o: Oid, req: Req, now: int) returns (r: Attempt)
      modifies this
      ensures Steps(o, old(View()), Lock(req, o), LockObject(now), View(), NextPc(req, o, r))
      ensures r == PickAgain <==> old(pending)
      ensures r == MustOpen <==> old(valid && !used && !open && !info && !pending)
      ensures r == GotInfo <==> req.frame < 0 && old(open && valid && !pending)
      ensures r == GotDecoder <==> req.frame >= 0 && old(valid && open && !used && !pending)
      ensures r == MustOpen ==> View() == old(View()).(pending := true, lru := now)
      ensures r == GotInfo ==> View() == old(View()).(refcnt := old(refcnt) + 1, info := true)
      ensures r == GotDecoder ==> View() == old(View()).(used := true)
      ensures r == PickAgain || r == TryAgain ==> View() == old(View())
    {
      AttemptSteps(o, View(), req, now);
      if pending {
        return PickAgain;
      }
      if valid && !used && !open && !info && !pending {
        pending := true;
        lru := now;
        return MustOpen;
      }
      if req.frame < 0 {
        if open && valid {
          refcnt := refcnt + 1;
          info := true;
          return GotInfo;
        }
      } else if valid && open && !used {
        used := true;
        return GotDecoder;
      }
      r := TryAgain;
    }

    /** my_open_movie opened the file: the thread that opened it takes the object at once. */
    method FinishOpen(ghost o: Oid, req: Req, file: File)
      requires valid && !used
      modifies this
      ensures Steps(o, old(View()), Opening(req, o), OpenOk(file), View(), Leave(req, if req.frame < 0 then HasInfo(o) else HasDecoder(o)))
      ensures var made := if req.fmt == -1 then 2 else req.fmt;
        var j := old(View()).(decoder := Some(Decoder(file, made)), fmt := made, open := true, pending := false);
        View() == if req.frame < 0 then j.(refcnt := old(refcnt) + 1, info := true) else j.(used := true)
    {
      OpenSteps(o, View(), req, file);
      decoder := Some(Decoder(file, if req.fmt == NO_FMT then DEFAULT_FMT else req.fmt));
      fmt := if req.fmt == NO_FMT then DEFAULT_FMT else req.fmt;
      open := true;
      pending := false;
      if req.frame < 0 {
        if open && valid {
          refcnt := refcnt + 1;
          info := true;
        }
      } else if valid && open && !used {
        used := true;
      }
    }

    method FailOpen(ghost o: Oid, ghost req: Req)
      modifies this
      ensures Steps(o, old(View()), Opening(req, o), OpenFail, View(), Leave(req, Failed(500)))
      ensures View() == old(View()).(pending := false)
    {
      pending := false;
    }

    /** xdctrl_decode */
    method Decode(ghost o: Oid, ghost req: Req, now: int, wanted: int)
      modifies this
      ensures Steps(o, old(View()), HoldDecoder(req, o), Render(now, wanted), View(), HoldDecoder(req, o))
      ensures View() == old(View()).(lru := now, frame := wanted)
    {
      lru := now;
      frame := wanted;
    }

    method ReleaseDecoder(ghost o: Oid, ghost req: Req)
      modifies this
      ensures Steps(o, old(View()), HoldDecoder(req, o), Release, View(), Idle)
      ensures View() == old(View()).(used := false)
    {
      used := false;
    }

    method ReleaseInfo(ghost o: Oid, ghost req: Req)
      modifies this
      ensures Steps(o, old(View()), HoldInfo(req, o), Release, View(), Idle)
      ensures View() == old(View()).(refcnt := old(refcnt) - 1, info := old(info) && old(refcnt) > 1)
    {
      refcnt := refcnt - 1;
      if refcnt < 1 {
        info := false;
      }
    }

    /** What clearjvo does with an object that it will not free; mode 3 waits until it is not busy. */
    method Visit(ghost o: Oid, job: Job, now: int)
      requires job.f == 3 && Busy(View()) ==> Skipped(job, View(), now)
      requires job.f <= 3
      modifies this
      ensures Steps(o, old(View()), Sweep(job, 0, now), SweepNext, View(), Sweep(job, 1, now))
      ensures (job.id > 0 && old(id) != job.id) || (job.age > 0 && old(lru) + job.age > now) || old(used || pending || info) ==>
        View() == old(View())
      ensures !((job.id > 0 && old(id) != job.id) || (job.age > 0 && old(lru) + job.age > now) || old(used || pending || info)) ==>
        IsCleared(job.f, old(View()))
    {
      VisitSteps(o, View(), job, now);
      if (job.id > 0 && id != job.id) || (job.age > 0 && lru + job.age > now) {
        return;
      }
      if used || pending || info {
        return;
      }
      Clear(job.f);
    }

    /** No decoder; and unless f == 0, no file either. */
    ghost predicate IsCleared(f: nat, was: Jvo)
      reads this
    {
      && !open && (was.open ==> decoder == None && fmt == -1) && (!was.open ==> decoder == was.decoder && fmt == was.fmt)
      && used == was.used && pending == was.pending && info == was.info && refcnt == was.refcnt
      && (f == 0 ==> id == was.id && lru == was.lru && frame == was.frame && valid == was.valid)
      && (f > 0 ==> id == 0 && lru == 0 && frame == -1 && !valid)
    }

    /** Close the decoder, and forget the file unless f == 0. */
    method Clear(f: nat)
      modifies this
      ensures View() == Cleared(old(View()), f) && IsCleared(f, old(View()))
    {
      if open {
        decoder := None;
        open := false;
        fmt := NO_FMT;
      }
      if f > 0 {
        id := 0;
        lru := 0;
        frame := -1;
        valid := false;
      }
    }

    /** getjvo: take over the object unless it is busy; `full` says that the list may not grow. */
    method TryRecycle(ghost o: Oid, ghost req: Req, ghost full: bool) returns (ok: bool)
      modifies this
      ensures Steps(o, old(View()), Recycle(req, o), RecycleLock(true, full), View(),
                    if ok then Claim(req, o) else if full then Pick(req) else Append(req))
      ensures ok == !old(used || pending || info)
      ensures View() == if ok then JustReset(old(View())) else old(View())
    {
      RecycleSteps(o, View(), req, full);
      ok := !(used || pending || info);
      if ok {
        Reset();
      }
    }

    /** No flag and no file; what else there is stays. */
    ghost function JustReset(was: Jvo): Jvo
    {
      Jvo(0, if was.open then -1 else was.fmt, -1, 0, false, false, false, false, false, was.refcnt, if was.open then None else was.decoder)
    }

    method Reset()
      modifies this
      ensures View() == Recycled(old(View())) == JustReset(old(View()))
    {
      if open {
        decoder := None;
        fmt := NO_FMT;
      }
      id := 0;
      lru := 0;
      used, open, valid, pending, info := false, false, false, false, false;
      frame := -1;
    }

    /** new_video_object: use the object if it is (still) blank. */
    method TryClaim(ghost o: Oid, req: Req) returns (ok: bool)
      modifies this
      ensures Steps(o, old(View()), Claim(req, o), ClaimLock(true), View(), if ok then Lock(req, o) else SweepWait(GcJob(req)))
      ensures ok == !old(used || open || valid || pending || info)
      ensures View() == if ok then old(View()).(id := req.id, fmt := if req.fmt == -1 then 2 else req.fmt, frame := -1, valid := true) else old(View())
    {
      ClaimSteps(o, View(), req);
      ok := !(used || open || valid || pending || info);
      if ok {
        id := req.id;
        fmt := if req.fmt == NO_FMT then DEFAULT_FMT else req.fmt;
        frame := -1;
        valid := true;
      }
    }
  }
}
