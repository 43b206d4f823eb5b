/**
  A thread that was given a decoder object locks it again and again until the object will do
  (the main loop of dctrl_get_decoder in libharvid/decoder_ctrl.c, which never picks another
  one unless a file is being opened).  Here is when it gets out of that loop, and what happens
  to a purge if it does not.
  */
module TrappedLock {
  import opened Wrappers
  import opened DecoderObject
  import opened DecoderPool

  type Tid = DecoderPool.Tid
  type Oid = DecoderPool.Oid

  /** It gets out exactly if the object is being opened, or is valid and not just the decoder of somebody else. */
  lemma LeavesLockIff(s: Pool, t: Tid, now: int)
    requires Inv(s) && t in s.pcs && s.pcs[t].Lock?
    ensures var pc, a := s.pcs[t], LockObject(now);
      && pc.o in s.objs && Enabled(s, t, a)
      && var j := s.objs[pc.o];
         && (Do(s, t, a).pcs[t] != pc <==> j.pending || (j.valid && !(j.used && pc.req.frame >= 0)))
         && (Do(s, t, a).pcs[t] == pc ==> Do(s, t, a) == s)
  {
    var pc := s.pcs[t];
    assert ThreadOk(s, t, pc) && ObjectOk(s.pcs, pc.o, s.objs[pc.o]);
    if AttemptResult(s.objs[pc.o], pc.req.frame).TryAgain? {
      assert s.objs[pc.o := s.objs[pc.o]] == s.objs && s.pcs[t := pc] == s.pcs;
    }
  }

  /** It can do nothing else. */
  lemma OnlyLocks(s: Pool, t: Tid, a: Action)
    requires t in s.pcs && s.pcs[t].Lock? && Enabled(s, t, a)
    ensures a.LockObject?
  {
  }

  /** An object that was cleared, and is neither claimed again nor being opened. */
  predicate Lost(j: Jvo)
  {
    !j.valid && !j.pending
  }

  /** Only another thread can help, and only by claiming the object. */
  lemma LostUntilClaimed(s: Pool, t: Tid, u: Tid, a: Action)
    requires Inv(s) && Enabled(s, u, a) && t in s.pcs && u != t
    requires s.pcs[t].Lock? && s.pcs[t].o in s.objs && Lost(s.objs[s.pcs[t].o])
    ensures var o, s' := s.pcs[t].o, Do(s, u, a);
      && s'.pcs[t] == s.pcs[t] && o in s'.objs
      && (Lost(s'.objs[o]) <==> !(a.ClaimLock? && a.got && s.pcs[u].o == o && Blank(s.objs[o])))
  {
    var o := s.pcs[t].o;
    assert ThreadOk(s, u, s.pcs[u]) && ObjectOk(s.pcs, o, s.objs[o]);
    ObjectAfter(s, u, a, o);
    if EffectOf(s, u, a).change.Free? {
      FreedIsUnreferenced(s, u, a, t);
    }
    if s.pcs[u].Opening? && s.pcs[u].o == o {
      CountPositive(s.pcs, u, OpenerOf(o));
    }
    LostAfter(s, u, a, o);
  }

  lemma LostAfter(s: Pool, u: Tid, a: Action, o: Oid)
    requires Enabled(s, u, a) && o in s.objs && Lost(s.objs[o]) && !(s.pcs[u].Opening? && s.pcs[u].o == o)
    ensures var c, claimed := EffectOf(s, u, a).change, a.ClaimLock? && a.got && s.pcs[u].o == o && Blank(s.objs[o]);
      if c.Set? && c.o == o then Lost(c.j) <==> !claimed else !claimed
  {
  }

  /** As long as a thread is in that loop, no purge gets past its waiting. */
  lemma PurgeWaitsForLocker(s: Pool, t: Tid, u: Tid)
    requires Inv(s) && t in s.pcs && s.pcs[t].Lock?
    ensures s.busycnt > 0 && !Enabled(s, u, PurgeGo)
  {
    CountPositive(s.pcs, t, Inside);
  }

  /**
    A purge is announced, thread t is in the loop with a lost object, and no other thread is
    between the purge test and BUSYDEC.
    */
  ghost predicate Stuck(s: Pool, t: Tid)
  {
    && s.purging > 0 && t in s.pcs && s.pcs[t].Lock? && s.pcs[t].o in s.objs && Lost(s.objs[s.pcs[t].o])
    && forall u {:trigger Outside(s.pcs, t, u)} :: Outside(s.pcs, t, u)
  }

  predicate Outside(pcs: map<Tid, Pc>, t: Tid, u: Tid)
  {
    u in pcs && u != t ==> !Plays(pcs[u], Inside) && !Plays(pcs[u], AtDoor)
  }

  /** While a purge is announced nobody comes in. */
  lemma StaysOutside(s: Pool, u: Tid, a: Action)
    requires Enabled(s, u, a) && ThreadOk(s, u, s.pcs[u]) && s.purging > 0 && !Plays(s.pcs[u], Inside) && !Plays(s.pcs[u], AtDoor)
    ensures !Plays(EffectOf(s, u, a).pc, Inside) && !Plays(EffectOf(s, u, a).pc, AtDoor)
  {
  }

  /** Whatever anybody does, it stays that way. */
  lemma StuckStep(s: Pool, t: Tid, u: Tid, a: Action)
    requires Inv(s) && Stuck(s, t) && Enabled(s, u, a)
    ensures Stuck(Do(s, u, a), t)
  {
    if u == t {
      OnlyLocks(s, t, a);
      LeavesLockIff(s, t, a.now);
    } else {
      assert Outside(s.pcs, t, u) && ThreadOk(s, u, s.pcs[u]);
      LostUntilClaimed(s, t, u, a);
      StaysOutside(s, u, a);
      PurgeStays(s, t, u, a);
      var s' := Do(s, u, a);
      forall v ensures Outside(s'.pcs, t, v) {
        assert Outside(s.pcs, t, v);
      }
    }
  }

  /** The purge is not over, because none can have started to sweep. */
  lemma PurgeStays(s: Pool, t: Tid, u: Tid, a: Action)
    requires Inv(s) && t in s.pcs && s.pcs[t].Lock? && s.purging > 0 && Enabled(s, u, a)
    ensures Do(s, u, a).purging > 0
  {
    assert ThreadOk(s, u, s.pcs[u]);
    CountPositive(s.pcs, t, Inside);
  }

  /** So the purge never goes on, and the thread never gets out, however long the run. */
  lemma {:induction false} StuckForever(states: seq<Pool>, steps: seq<(Tid, Action)>, t: Tid, i: nat)
    requires |states| == |steps| + 1 && Inv(states[0]) && Stuck(states[0], t) && i < |states|
    requires forall k {:trigger Follows(states, steps, k)} :: 0 <= k < |steps| ==> Follows(states, steps, k)
    ensures Inv(states[i]) && Stuck(states[i], t) && forall u :: !Enabled(states[i], u, PurgeGo)
  {
    if i > 0 {
      StuckForever(states, steps, t, i - 1);
      assert Follows(states, steps, i - 1);
      StepKeepsInv(states[i - 1], steps[i - 1].0, steps[i - 1].1);
      StuckStep(states[i - 1], t, steps[i - 1].0, steps[i - 1].1);
    }
    forall u ensures !Enabled(states[i], u, PurgeGo) {
      PurgeWaitsForLocker(states[i], t, u);
    }
  }
}
