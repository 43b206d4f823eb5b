/**
  Runs of the decoder pool as it is coded in which a thread ends up with a decoder for
  another file.  In both two threads use the one object of a new pool.
  */
module PoolRuns {
  import opened Wrappers
  import opened DecoderObject
  import opened DecoderPool
  import opened TrappedLock

  type Tid = DecoderPool.Tid
  type Oid = DecoderPool.Oid

  datatype Run = Run(states: seq<Pool>, steps: seq<(Tid, Action)>)
  {
    ghost predicate Valid()
    {
      IsRun(states, steps)
    }

    ghost function First(): Pool
      requires Valid()
    {
      states[0]
    }

    ghost function Last(): Pool
      requires Valid()
    {
      states[|steps|]
    }
  }

  /** A pool of one object in which nobody purges. */
  function OneObject(o: Oid, j: Jvo, busy: int, pcs: map<Tid, Pc>): Pool
  {
    Pool([o], map[o := j], busy, 0, None, None, pcs)
  }

  lemma Start(s: Pool) returns (r: Run)
    requires Initial(s)
    ensures r.Valid() && r.First() == r.Last() == s && r.steps == []
  {
    r := Run([s], []);
  }

  lemma Extend(r: Run, t: Tid, a: Action, next: Pool) returns (r': Run)
    requires r.Valid() && Enabled(r.Last(), t, a) && Do(r.Last(), t, a) == next
    ensures r'.Valid() && r'.First() == r.First() && r'.Last() == next
    ensures r'.steps == r.steps + [(t, a)]
  {
    r' := Run(r.states + [next], r.steps + [(t, a)]);
  }

  // ---------------------------------------------------------------------------------
  // Pieces of runs

  /** BUSYADD, and nothing in the index. */
  lemma ComeIn(r: Run, t: Tid, req: Req, o: Oid, j: Jvo, busy: int, pcs: map<Tid, Pc>) returns (r': Run)
    requires r.Valid() && r.Last() == OneObject(o, j, busy, pcs) && t in pcs && pcs[t].Idle?
    ensures r'.Valid() && r'.First() == r.First() && r'.Last() == OneObject(o, j, busy + 1, pcs[t := Pick(req)])
    ensures r'.steps == r.steps + [(t, Request(req)), (t, SeeNoPurge), (t, BusyAdd), (t, IndexMiss)]
  {
    r' := PassDoor(r, t, req, o, j, busy, pcs);
    r' := Extend(r', t, BusyAdd, OneObject(o, j, busy + 1, pcs[t := Lookup(req)]));
    r' := Extend(r', t, IndexMiss, OneObject(o, j, busy + 1, pcs[t := Pick(req)]));
  }

  lemma PassDoor(r: Run, t: Tid, req: Req, o: Oid, j: Jvo, busy: int, pcs: map<Tid, Pc>) returns (r': Run)
    requires r.Valid() && r.Last() == OneObject(o, j, busy, pcs) && t in pcs && pcs[t].Idle?
    ensures r'.Valid() && r'.First() == r.First() && r'.Last() == OneObject(o, j, busy, pcs[t := Enter(req)])
    ensures r'.steps == r.steps + [(t, Request(req)), (t, SeeNoPurge)]
  {
    r' := Extend(r, t, Request(req), OneObject(o, j, busy, pcs[t := Check(req)]));
    r' := Extend(r', t, SeeNoPurge, OneObject(o, j, busy, pcs[t := Enter(req)]));
  }

  /** testjvd found nothing; the garbage collection of getjvo clears the object, which was not used for ten minutes. */
  lemma Collect(r: Run, t: Tid, req: Req, now: int, o: Oid, j: Jvo, busy: int, pcs: map<Tid, Pc>) returns (r': Run)
    requires r.Valid() && r.Last() == OneObject(o, j, busy, pcs[t := Pick(req)]) && t in pcs
    requires !Busy(j) && j.lru + 600 <= now
    ensures r'.Valid() && r'.First() == r.First() && r'.Last() == OneObject(o, Cleared(j, 1), busy, pcs[t := Scan(req)])
    ensures r'.steps == r.steps + [(t, PickNew), (t, SweepStart(now)), (t, SweepNext), (t, SweepEnd)]
  {
    var job := GcJob(req);
    r' := StartSweep(r, t, req, now, o, j, busy, pcs);
    r' := SweepIt(r', t, job, now, o, j, busy, pcs);
    r' := Extend(r', t, SweepEnd, OneObject(o, Cleared(j, 1), busy, pcs[t := Scan(req)]));
  }

  lemma StartSweep(r: Run, t: Tid, req: Req, now: int, o: Oid, j: Jvo, busy: int, pcs: map<Tid, Pc>) returns (r': Run)
    requires r.Valid() && r.Last() == OneObject(o, j, busy, pcs[t := Pick(req)]) && t in pcs
    ensures r'.Valid() && r'.First() == r.First()
    ensures r'.Last() == OneObject(o, j, busy, pcs[t := Sweep(GcJob(req), 0, now)]).(lockJvo := Some(t))
    ensures r'.steps == r.steps + [(t, PickNew), (t, SweepStart(now))]
  {
    r' := Extend(r, t, PickNew, OneObject(o, j, busy, pcs[t := SweepWait(GcJob(req))]));
    r' := Extend(r', t, SweepStart(now), OneObject(o, j, busy, pcs[t := Sweep(GcJob(req), 0, now)]).(lockJvo := Some(t)));
  }

  lemma SweepIt(r: Run, t: Tid, job: Job, now: int, o: Oid, j: Jvo, busy: int, pcs: map<Tid, Pc>) returns (r': Run)
    requires r.Valid() && r.Last() == OneObject(o, j, busy, pcs[t := Sweep(job, 0, now)]).(lockJvo := Some(t)) && t in pcs
    requires job.f == 1 && !Skipped(job, j, now) && !Busy(j)
    ensures r'.Valid() && r'.First() == r.First()
    ensures r'.Last() == OneObject(o, Cleared(j, 1), busy, pcs[t := Sweep(job, 1, now)]).(lockJvo := Some(t))
    ensures r'.steps == r.steps + [(t, SweepNext)]
  {
    Sweeps(t, job, now, o, j, busy, pcs[t := Sweep(job, 0, now)]);
    assert pcs[t := Sweep(job, 0, now)][t := Sweep(job, 1, now)] == pcs[t := Sweep(job, 1, now)];
    r' := Extend(r, t, SweepNext, OneObject(o, Cleared(j, 1), busy, pcs[t := Sweep(job, 1, now)]).(lockJvo := Some(t)));
  }

  /** getjvo returns the object, which is blank. */
  lemma Choose(r: Run, t: Tid, req: Req, o: Oid, j: Jvo, busy: int, pcs: map<Tid, Pc>) returns (r': Run)
    requires r.Valid() && r.Last() == OneObject(o, j, busy, pcs[t := Scan(req)]) && t in pcs && Blank(j)
    ensures r'.Valid() && r'.First() == r.First() && r'.Last() == OneObject(o, j, busy, pcs[t := Claim(req, o)])
    ensures r'.steps == r.steps + [(t, ScanPick(o))]
  {
    r' := Extend(r, t, ScanPick(o), OneObject(o, j, busy, pcs[t := Claim(req, o)]));
  }

  lemma ClaimBlank(r: Run, t: Tid, req: Req, o: Oid, j: Jvo, busy: int, pcs: map<Tid, Pc>) returns (r': Run)
    requires r.Valid() && r.Last() == OneObject(o, j, busy, pcs[t := Claim(req, o)]) && t in pcs && Blank(j)
    ensures r'.Valid() && r'.First() == r.First() && r'.Last() == OneObject(o, Claimed(j, req.id, req.fmt), busy, pcs[t := Lock(req, o)])
    ensures r'.steps == r.steps + [(t, ClaimLock(true))]
  {
    r' := Extend(r, t, ClaimLock(true), OneObject(o, Claimed(j, req.id, req.fmt), busy, pcs[t := Lock(req, o)]));
  }

  /** From a request to the blank object that getjvo returns for it. */
  lemma Obtain(r: Run, t: Tid, req: Req, now: int, o: Oid, j: Jvo, busy: int, pcs: map<Tid, Pc>) returns (r': Run)
    requires r.Valid() && r.Last() == OneObject(o, j, busy, pcs) && t in pcs && pcs[t].Idle?
    requires !Busy(j) && j.lru + 600 <= now
    ensures r'.Valid() && r'.First() == r.First() && r'.Last() == OneObject(o, Cleared(j, 1), busy + 1, pcs[t := Claim(req, o)])
    ensures r'.steps == r.steps + Obtaining(t, req, now, o)
  {
    r' := ComeIn(r, t, req, o, j, busy, pcs);
    r' := Collect(r', t, req, now, o, j, busy + 1, pcs);
    r' := Choose(r', t, req, o, Cleared(j, 1), busy + 1, pcs);
  }

  function Obtaining(t: Tid, req: Req, now: int, o: Oid): seq<(Tid, Action)>
  {
    [(t, Request(req)), (t, SeeNoPurge), (t, BusyAdd), (t, IndexMiss),
     (t, PickNew), (t, SweepStart(now)), (t, SweepNext), (t, SweepEnd), (t, ScanPick(o))]
  }

  /** The object is opened, taken, and the thread leaves with the decoder. */
  lemma Open(r: Run, t: Tid, req: Req, now: int, file: File, o: Oid, j: Jvo, busy: int, pcs: map<Tid, Pc>) returns (r': Run, j': Jvo)
    requires r.Valid() && r.Last() == OneObject(o, j, busy, pcs[t := Lock(req, o)]) && t in pcs && req.frame >= 0
    requires j.valid && !j.open && !Busy(j)
    ensures j' == AfterOpen(AfterAttempt(j, req.frame, now), req.fmt, req.frame, file)
    ensures r'.Valid() && r'.First() == r.First() && r'.Last() == OneObject(o, j', busy - 1, pcs[t := HoldDecoder(req, o)])
    ensures r'.steps == r.steps + [(t, LockObject(now)), (t, OpenOk(file)), (t, BusyDec)]
  {
    var pending := AfterAttempt(j, req.frame, now);
    j' := AfterOpen(pending, req.fmt, req.frame, file);
    Opens(t, req, file, o, pending, busy, pcs[t := Opening(req, o)]);
    assert pcs[t := Opening(req, o)][t := Leave(req, HasDecoder(o))] == pcs[t := Leave(req, HasDecoder(o))];
    Leaves(t, req, o, j', busy, pcs[t := Leave(req, HasDecoder(o))]);
    assert pcs[t := Leave(req, HasDecoder(o))][t := HoldDecoder(req, o)] == pcs[t := HoldDecoder(req, o)];
    r' := Extend(r, t, LockObject(now), OneObject(o, pending, busy, pcs[t := Opening(req, o)]));
    r' := Extend(r', t, OpenOk(file), OneObject(o, j', busy, pcs[t := Leave(req, HasDecoder(o))]));
    r' := Extend(r', t, BusyDec, OneObject(o, j', busy - 1, pcs[t := HoldDecoder(req, o)]));
  }

  lemma LetGo(r: Run, t: Tid, req: Req, o: Oid, j: Jvo, busy: int, pcs: map<Tid, Pc>) returns (r': Run)
    requires r.Valid() && r.Last() == OneObject(o, j, busy, pcs[t := HoldDecoder(req, o)]) && t in pcs
    ensures r'.Valid() && r'.First() == r.First() && r'.Last() == OneObject(o, AfterReleaseDecoder(j), busy, pcs[t := Idle])
    ensures r'.steps == r.steps + [(t, Release)]
  {
    r' := Extend(r, t, Release, OneObject(o, AfterReleaseDecoder(j), busy, pcs[t := Idle]));
  }

  /** An open decoder is taken as it is. */
  lemma TakeOpen(r: Run, t: Tid, req: Req, now: int, o: Oid, j: Jvo, busy: int, pcs: map<Tid, Pc>) returns (r': Run)
    requires r.Valid() && r.Last() == OneObject(o, j, busy, pcs[t := Lock(req, o)]) && t in pcs && req.frame >= 0
    requires j.valid && j.open && !Busy(j)
    ensures r'.Valid() && r'.First() == r.First() && r'.Last() == OneObject(o, j.(used := true), busy - 1, pcs[t := HoldDecoder(req, o)])
    ensures r'.steps == r.steps + [(t, LockObject(now)), (t, BusyDec)]
  {
    Takes(t, req, now, o, j, busy, pcs[t := Lock(req, o)]);
    Leaves(t, req, o, j.(used := true), busy, pcs[t := Leave(req, HasDecoder(o))]);
    assert pcs[t := Lock(req, o)][t := Leave(req, HasDecoder(o))] == pcs[t := Leave(req, HasDecoder(o))];
    assert pcs[t := Leave(req, HasDecoder(o))][t := HoldDecoder(req, o)] == pcs[t := HoldDecoder(req, o)];
    r' := Extend(r, t, LockObject(now), OneObject(o, j.(used := true), busy, pcs[t := Leave(req, HasDecoder(o))]));
    r' := Extend(r', t, BusyDec, OneObject(o, j.(used := true), busy - 1, pcs[t := HoldDecoder(req, o)]));
  }

  // ---------------------------------------------------------------------------------
  // Picked, but not yet locked

  /**
    Thread u is given the object for its file and has yet to lock it.  Thread t's garbage
    collection clears it, t opens it for another file and lets go of it, and u then takes the
    open decoder: it asked for `mine` and holds a decoder for `yours`.
    */
  lemma StaleLockTakesWrongDecoder(s: Pool, t: Tid, u: Tid, mine: Req, yours: Req, now: int, file: File) returns (r: Run)
    requires Initial(s) && t in s.pcs && u in s.pcs && t != u && now >= 600
    requires mine.frame >= 0 && yours.frame >= 0 && mine.id != yours.id
    ensures r.Valid() && r.First() == s
    ensures var o, p := s.list[0], r.Last();
      && r.steps == Obtaining(u, mine, now, o) + [(u, ClaimLock(true))]
                  + Obtaining(t, yours, now, o) + [(t, ClaimLock(true))]
                  + [(t, LockObject(now)), (t, OpenOk(file)), (t, BusyDec)] + [(t, Release)]
                  + [(u, LockObject(now)), (u, BusyDec)]
      && p.pcs == s.pcs[u := HoldDecoder(mine, o)]
      && o in p.objs && p.objs[o].id == yours.id && p.objs[o].decoder == Some(Decoder(file, WantedFmt(yours.fmt)))
  {
    var o := s.list[0];
    var waiting: map<Tid, Pc> := s.pcs[u := Lock(mine, o)];
    var j1 := Claimed(Cleared(NEW_JVO, 1), mine.id, mine.fmt);
    var j2 := Claimed(Cleared(j1, 1), yours.id, yours.fmt);
    var j3;
    r := Start(s);
    r := Obtain(r, u, mine, now, o, NEW_JVO, 0, s.pcs);
    r := ClaimBlank(r, u, mine, o, Cleared(NEW_JVO, 1), 1, s.pcs);
    r := Obtain(r, t, yours, now, o, j1, 1, waiting);
    r := ClaimBlank(r, t, yours, o, Cleared(j1, 1), 2, waiting);
    r, j3 := Open(r, t, yours, now, file, o, j2, 2, waiting);
    r := LetGo(r, t, yours, o, j3, 1, waiting);
    assert waiting[t := Idle] == s.pcs[u := Lock(mine, o)];
    r := TakeOpen(r, u, mine, now, o, AfterReleaseDecoder(j3), 1, s.pcs);
  }

  /**
    Thread u is given the object for its file and has yet to lock it.  Thread t clears the
    unused objects (dctrl_cache_clear with f == 1; the garbage collection of a request does it
    likewise), and then begins to purge: u is in its loop for good, and the purge waits.
    */
  lemma ClearedObjectTrapsThread(s: Pool, t: Tid, u: Tid, mine: Req, now: int) returns (r: Run)
    requires Initial(s) && t in s.pcs && u in s.pcs && t != u && now >= 600
    ensures r.Valid() && r.First() == s
    ensures var o := s.list[0];
      && r.steps == Obtaining(u, mine, now, o) + [(u, ClaimLock(true))]
                  + [(t, Clear(1, -1)), (t, SweepStart(now))] + [(t, SweepNext)] + [(t, SweepEnd)] + [(t, Clear(2, -1))]
      && r.Last().pcs == s.pcs[u := Lock(mine, o)][t := PurgeWait(Job(2, -1, -1, None))]
      && Stuck(r.Last(), u)
  {
    var o, job, all := s.list[0], Job(1, -1, -1, None), Job(2, -1, -1, None);
    var j := Claimed(Cleared(NEW_JVO, 1), mine.id, mine.fmt);
    var waiting: map<Tid, Pc> := s.pcs[u := Lock(mine, o)];
    r := Start(s);
    r := Obtain(r, u, mine, now, o, NEW_JVO, 0, s.pcs);
    r := ClaimBlank(r, u, mine, o, Cleared(NEW_JVO, 1), 1, s.pcs);
    r := StartClear(r, t, now, o, j, 1, waiting);
    r := SweepIt(r, t, job, now, o, j, 1, waiting);
    r := EndClear(r, t, now, o, Cleared(j, 1), 1, waiting);
    r := Extend(r, t, Clear(2, -1), OneObject(o, Cleared(j, 1), 1, waiting[t := PurgeWait(all)]).(purging := 1));
    forall v ensures Outside(r.Last().pcs, u, v) {
    }
  }

  lemma StartClear(r: Run, t: Tid, now: int, o: Oid, j: Jvo, busy: int, pcs: map<Tid, Pc>) returns (r': Run)
    requires r.Valid() && r.Last() == OneObject(o, j, busy, pcs) && t in pcs && pcs[t].Idle?
    ensures r'.Valid() && r'.First() == r.First()
    ensures r'.Last() == OneObject(o, j, busy, pcs[t := Sweep(Job(1, -1, -1, None), 0, now)]).(lockJvo := Some(t))
    ensures r'.steps == r.steps + [(t, Clear(1, -1)), (t, SweepStart(now))]
  {
    var job := Job(1, -1, -1, None);
    r' := Extend(r, t, Clear(1, -1), OneObject(o, j, busy, pcs[t := SweepWait(job)]));
    r' := Extend(r', t, SweepStart(now), OneObject(o, j, busy, pcs[t := Sweep(job, 0, now)]).(lockJvo := Some(t)));
  }

  lemma EndClear(r: Run, t: Tid, now: int, o: Oid, j: Jvo, busy: int, pcs: map<Tid, Pc>) returns (r': Run)
    requires r.Valid() && r.Last() == OneObject(o, j, busy, pcs[t := Sweep(Job(1, -1, -1, None), 1, now)]).(lockJvo := Some(t))
    requires t in pcs && pcs[t].Idle?
    ensures r'.Valid() && r'.First() == r.First() && r'.Last() == OneObject(o, j, busy, pcs)
    ensures r'.steps == r.steps + [(t, SweepEnd)]
  {
    assert pcs[t := Sweep(Job(1, -1, -1, None), 1, now)][t := Idle] == pcs;
    r' := Extend(r, t, SweepEnd, OneObject(o, j, busy, pcs));
  }

  // ---------------------------------------------------------------------------------
  // `continue`

  /** Thread t claims as coded, u lets go of the decoder, and t takes it. */
  predicate GoesOn(p0: Pool, t: Tid, u: Tid, now: int, p: Pool)
  {
    && CanClaim(p0, t)
    && var p1 := ClaimAsCoded(p0, t);
    && Enabled(p1, u, Release)
    && var p2 := Do(p1, u, Release);
    && Enabled(p2, t, LockObject(now))
    && var p3 := Do(p2, t, LockObject(now));
    && Enabled(p3, t, BusyDec) && p == Do(p3, t, BusyDec)
  }

  /**
    Both threads are given the blank object.  u claims it, opens it and holds the decoder; t then
    finds it claimed and, as coded, claims it all the same.  When u has let go, t takes the
    decoder: it asked for `yours` and holds a decoder for u's file, in an object that carries
    the id of its own.
    */
  lemma ClaimAsCodedTakesWrongDecoder(s: Pool, t: Tid, u: Tid, mine: Req, yours: Req, now: int, file: File)
    returns (r: Run, p: Pool)
    requires Initial(s) && t in s.pcs && u in s.pcs && t != u && now >= 600
    requires mine.frame >= 0 && yours.frame >= 0 && mine.id != yours.id
    ensures r.Valid() && r.First() == s
    ensures var o := s.list[0];
      && r.steps == Obtaining(u, mine, now, o) + Obtaining(t, yours, now, o) + [(u, ClaimLock(true))]
                  + [(u, LockObject(now)), (u, OpenOk(file)), (u, BusyDec)]
      && o in r.Last().objs && !Blank(r.Last().objs[o]) && GoesOn(r.Last(), t, u, now, p)
    ensures var o := s.list[0];
      && p.pcs == s.pcs[t := HoldDecoder(yours, o)]
      && o in p.objs && p.objs[o].id == yours.id && p.objs[o].decoder == Some(Decoder(file, WantedFmt(mine.fmt)))
  {
    var o := s.list[0];
    var blank := Cleared(Cleared(NEW_JVO, 1), 1);
    var yoursFirst: map<Tid, Pc> := s.pcs[t := Claim(yours, o)];
    var j;
    r := BothObtain(s, t, u, mine, yours, now);
    r := ClaimBlank(r, u, mine, o, blank, 2, yoursFirst);
    r, j := Open(r, u, mine, now, file, o, Claimed(blank, mine.id, mine.fmt), 2, yoursFirst);
    p := AfterClaimAsCoded(s, t, u, mine, yours, now, o, j);
  }

  lemma BothObtain(s: Pool, t: Tid, u: Tid, mine: Req, yours: Req, now: int) returns (r: Run)
    requires Initial(s) && t in s.pcs && u in s.pcs && t != u && now >= 600
    ensures r.Valid() && r.First() == s
    ensures r.Last() == OneObject(s.list[0], Cleared(Cleared(NEW_JVO, 1), 1), 2, s.pcs[t := Claim(yours, s.list[0])][u := Claim(mine, s.list[0])])
    ensures r.steps == Obtaining(u, mine, now, s.list[0]) + Obtaining(t, yours, now, s.list[0])
  {
    var o := s.list[0];
    var mineFirst: map<Tid, Pc> := s.pcs[u := Claim(mine, o)];
    r := Start(s);
    r := Obtain(r, u, mine, now, o, NEW_JVO, 0, s.pcs);
    r := Obtain(r, t, yours, now, o, Cleared(NEW_JVO, 1), 1, mineFirst);
    assert mineFirst[t := Claim(yours, o)] == s.pcs[t := Claim(yours, o)][u := Claim(mine, o)];
  }

  lemma AfterClaimAsCoded(s: Pool, t: Tid, u: Tid, mine: Req, yours: Req, now: int, o: Oid, j: Jvo) returns (p: Pool)
    requires t in s.pcs && u in s.pcs && t != u && yours.frame >= 0 && s.pcs[u].Idle?
    requires j.valid && j.open && j.used && !j.pending && !j.info
    ensures GoesOn(OneObject(o, j, 1, s.pcs[t := Claim(yours, o)][u := HoldDecoder(mine, o)]), t, u, now, p)
    ensures p.pcs == s.pcs[t := HoldDecoder(yours, o)]
    ensures o in p.objs && p.objs[o].id == yours.id && p.objs[o].decoder == j.decoder
  {
    var claimed := Claimed(j, yours.id, yours.fmt);
    var both: map<Tid, Pc> := s.pcs[t := Lock(yours, o)][u := HoldDecoder(mine, o)];
    var locking: map<Tid, Pc> := s.pcs[t := Lock(yours, o)];
    ClaimsAsCoded(t, yours, o, j, 1, s.pcs[t := Claim(yours, o)][u := HoldDecoder(mine, o)]);
    assert s.pcs[t := Claim(yours, o)][u := HoldDecoder(mine, o)][t := Lock(yours, o)] == both;
    Releases(u, mine, o, claimed, 1, both);
    assert both[u := Idle] == locking;
    Takes(t, yours, now, o, claimed.(used := false), 1, locking);
    assert locking[t := Leave(yours, HasDecoder(o))] == s.pcs[t := Leave(yours, HasDecoder(o))];
    Leaves(t, yours, o, claimed.(used := false).(used := true), 1, s.pcs[t := Leave(yours, HasDecoder(o))]);
    p := OneObject(o, claimed.(used := false).(used := true), 0, s.pcs[t := HoldDecoder(yours, o)]);
    assert s.pcs[t := Leave(yours, HasDecoder(o))][t := HoldDecoder(yours, o)] == p.pcs;
  }

  lemma ClaimsAsCoded(t: Tid, req: Req, o: Oid, j: Jvo, busy: int, pcs: map<Tid, Pc>)
    requires t in pcs && pcs[t] == Claim(req, o)
    ensures var p := OneObject(o, j, busy, pcs);
      CanClaim(p, t) && ClaimAsCoded(p, t) == OneObject(o, Claimed(j, req.id, req.fmt), busy, pcs[t := Lock(req, o)])
  {
    assert map[o := j][o := Claimed(j, req.id, req.fmt)] == map[o := Claimed(j, req.id, req.fmt)];
  }

  lemma Releases(t: Tid, req: Req, o: Oid, j: Jvo, busy: int, pcs: map<Tid, Pc>)
    requires t in pcs && pcs[t] == HoldDecoder(req, o)
    ensures var p := OneObject(o, j, busy, pcs);
      Enabled(p, t, Release) && Do(p, t, Release) == OneObject(o, AfterReleaseDecoder(j), busy, pcs[t := Idle])
  {
    assert map[o := j][o := AfterReleaseDecoder(j)] == map[o := AfterReleaseDecoder(j)];
  }

  lemma Sweeps(t: Tid, job: Job, now: int, o: Oid, j: Jvo, busy: int, pcs: map<Tid, Pc>)
    requires t in pcs && pcs[t] == Sweep(job, 0, now) && job.f == 1 && !Skipped(job, j, now) && !Busy(j)
    ensures var p := OneObject(o, j, busy, pcs).(lockJvo := Some(t));
      && Enabled(p, t, SweepNext)
      && Do(p, t, SweepNext) == OneObject(o, Cleared(j, 1), busy, pcs[t := Sweep(job, 1, now)]).(lockJvo := Some(t))
  {
    assert map[o := j][o := Cleared(j, 1)] == map[o := Cleared(j, 1)];
  }

  lemma Opens(t: Tid, req: Req, file: File, o: Oid, j: Jvo, busy: int, pcs: map<Tid, Pc>)
    requires t in pcs && pcs[t] == Opening(req, o) && req.frame >= 0
    ensures var p, a := OneObject(o, j, busy, pcs), OpenOk(file);
      && Enabled(p, t, a)
      && Do(p, t, a) == OneObject(o, AfterOpen(j, req.fmt, req.frame, file), busy, pcs[t := Leave(req, HasDecoder(o))])
  {
    var j' := AfterOpen(j, req.fmt, req.frame, file);
    assert map[o := j][o := j'] == map[o := j'];
  }

  lemma Takes(t: Tid, req: Req, now: int, o: Oid, j: Jvo, busy: int, pcs: map<Tid, Pc>)
    requires t in pcs && pcs[t] == Lock(req, o) && req.frame >= 0 && j.valid && j.open && !Busy(j)
    ensures var p, a := OneObject(o, j, busy, pcs), LockObject(now);
      Enabled(p, t, a) && Do(p, t, a) == OneObject(o, j.(used := true), busy, pcs[t := Leave(req, HasDecoder(o))])
  {
    assert map[o := j][o := j.(used := true)] == map[o := j.(used := true)];
  }

  lemma Leaves(t: Tid, req: Req, o: Oid, j: Jvo, busy: int, pcs: map<Tid, Pc>)
    requires t in pcs && pcs[t] == Leave(req, HasDecoder(o))
    ensures var p := OneObject(o, j, busy, pcs);
      Enabled(p, t, BusyDec) && Do(p, t, BusyDec) == OneObject(o, j, busy - 1, pcs[t := HoldDecoder(req, o)])
  {
  }
}
