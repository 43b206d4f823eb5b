/**
  Runs in which nobody gets in between: what a thread has found in the cache keeps its key
  until it is pinned, and the decoder object that it was given stays one for its file until it is
  locked.  In these runs a lookup is as good as what it compares, and every pin and every lock
  is fresh.
  */
module QuietRuns {
  import opened Wrappers
  import opened DecoderObject
  import opened Server
  import Pool = DecoderPool
  import Cache = FrameCache

  type Tid = Server.Tid

  /** The line that a thread has found has the key it looked for. */
  predicate Found(lines: map<Cache.Lid, Cache.Line>, pc: Cache.Pc)
  {
    pc.Pin? ==> pc.l in lines && lines[pc.l].key == pc.key
  }

  /** An object that testjvd finds for a request. */
  predicate Suits(j: Jvo, req: Pool.Req)
  {
    j.valid && j.id == req.id && (j.fmt == req.fmt || (j.fmt == NO_FMT && !j.open))
  }

  /** If it is valid, it is for the file of the request, and if it is open, in its format. */
  predicate WillDo(j: Jvo, req: Pool.Req)
  {
    j.valid ==> j.id == req.id && (j.open ==> j.fmt == req.fmt)
  }

  /** So is the object that a thread was given to decode with; only information requests go by the index. */
  predicate Given(objs: map<Pool.Oid, Jvo>, pc: Pool.Pc)
  {
    && (pc.Lock? && pc.req.frame >= 0 ==> pc.o in objs && WillDo(objs[pc.o], pc.req))
    && (pc.InfoTry? ==> pc.req.frame < 0)
  }

  /** A step of another thread leaves thread t what it has found and was given. */
  predicate LeavesAlone(s: State, s': State, t: Tid)
  {
    && (t in s.cache.pcs && s.cache.pcs[t].Pin? && s.cache.pcs[t].l in s.cache.lines ==>
          var l := s.cache.pcs[t].l;
          l in s'.cache.lines && s'.cache.lines[l].key == s.cache.lines[l].key)
    && (t in s.pool.pcs && s.pool.pcs[t].Lock? && s.pool.pcs[t].o in s.pool.objs ==>
          var o, req := s.pool.pcs[t].o, s.pool.pcs[t].req;
          o in s'.pool.objs && (WillDo(s.pool.objs[o], req) ==> WillDo(s'.pool.objs[o], req)))
  }

  /**
    A quiet step leaves the others alone.  An object that is picked is one that testjvd finds, and
    a line that getcl returns early is for the picture asked for.
    */
  ghost predicate Quiet(s: State, dec: Decoding, u: Tid, a: Action)
    requires Enabled(s, dec, u, a)
  {
    && (a.CacheStep? && a.c.EarlyLine? ==> SameShot(s.ids.issued, s.cache.lines[a.c.l].key, s.cache.pcs[u].key))
    && (a.PoolStep? && a.p.PickObject? ==> Suits(s.pool.objs[a.p.o], s.pool.pcs[u].req))
    && forall t {:trigger LeavesAlone(s, Do(s, dec, u, a), t)} :: t != u ==> LeavesAlone(s, Do(s, dec, u, a), t)
  }

  /** While no other thread is between finding and pinning, or between being given an object and locking it, nobody is disturbed. */
  lemma AloneIsQuiet(s: State, dec: Decoding, u: Tid, a: Action)
    requires Enabled(s, dec, u, a)
    requires forall t :: t in s.cache.pcs && t != u ==> !s.cache.pcs[t].Pin?
    requires forall t :: t in s.pool.pcs && t != u ==> !s.pool.pcs[t].Lock?
    requires a.CacheStep? && a.c.EarlyLine? ==> SameShot(s.ids.issued, s.cache.lines[a.c.l].key, s.cache.pcs[u].key)
    requires a.PoolStep? && a.p.PickObject? ==> Suits(s.pool.objs[a.p.o], s.pool.pcs[u].req)
    ensures Quiet(s, dec, u, a)
  {
  }

  ghost predicate Findings(s: State)
  {
    && (forall t {:trigger Found(s.cache.lines, s.cache.pcs[t])} :: t in s.cache.pcs ==> Found(s.cache.lines, s.cache.pcs[t]))
    && (forall t {:trigger Given(s.pool.objs, s.pool.pcs[t])} :: t in s.pool.pcs ==> Given(s.pool.objs, s.pool.pcs[t]))
  }

  // ---------------------------------------------------------------------------------
  // One step

  /** A hit is a line with the key looked for, and pinning it is fresh as long as it keeps that key. */
  lemma HitIsFresh(s: State, dec: Decoding, t: Tid, l: Cache.Lid, later: State)
    requires Enabled(s, dec, t, CacheStep(Cache.Hit(l)))
    requires Inv(later, dec) && Enabled(later, dec, t, CacheStep(Cache.PinLine))
    requires later.cache.pcs[t] == Do(s, dec, t, CacheStep(Cache.Hit(l))).cache.pcs[t]
    requires later.cache.lines[l].key == s.cache.lines[l].key
    ensures s.cache.lines[l].key == s.cache.pcs[t].key
    ensures Fresh(later, dec, t, CacheStep(Cache.PinLine))
  {
    assert ThreadGood(later, dec, t);
  }

  lemma CacheFindings(c: Cache.Cache, u: Tid, a: Cache.Action)
    requires Cache.Enabled(c, u, a) && !a.PinLine? && Found(c.lines, c.pcs[u])
    ensures var c' := Cache.Do(c, u, a); Found(c'.lines, c'.pcs[u])
  {
  }

  lemma PinnedIsFound(c: Cache.Cache, u: Tid)
    requires Cache.Enabled(c, u, Cache.PinLine)
    ensures var c' := Cache.Do(c, u, Cache.PinLine); Found(c'.lines, c'.pcs[u])
  {
  }

  lemma PoolFindings(p: Pool.Pool, u: Tid, a: Pool.Action)
    requires Pool.Enabled(p, u, a) && Given(p.objs, p.pcs[u])
    requires a.PickObject? ==> Suits(p.objs[a.o], p.pcs[u].req)
    ensures var p' := Pool.Do(p, u, a); Given(p'.objs, p'.pcs[u])
  {
  }

  /** The mover has found what it says it has found. */
  lemma MoverFindings(s: State, dec: Decoding, u: Tid, a: Action)
    requires Findings(s) && Enabled(s, dec, u, a) && Quiet(s, dec, u, a)
    ensures var s' := Do(s, dec, u, a);
      Found(s'.cache.lines, s'.cache.pcs[u]) && Given(s'.pool.objs, s'.pool.pcs[u])
  {
    assert Found(s.cache.lines, s.cache.pcs[u]) && Given(s.pool.objs, s.pool.pcs[u]);
    if a.CacheStep? {
      if a.c.PinLine? { PinnedIsFound(s.cache, u); } else { CacheFindings(s.cache, u, a.c); }
    } else if a.PoolStep? {
      PoolFindings(s.pool, u, a.p);
    } else {
      OtherFindings(s, dec, u, a);
    }
  }

  lemma OtherFindings(s: State, dec: Decoding, u: Tid, a: Action)
    requires Enabled(s, dec, u, a) && !a.CacheStep? && !a.PoolStep?
    requires Found(s.cache.lines, s.cache.pcs[u]) && Given(s.pool.objs, s.pool.pcs[u])
    ensures var s' := Do(s, dec, u, a);
      Found(s'.cache.lines, s'.cache.pcs[u]) && Given(s'.pool.objs, s'.pool.pcs[u])
  {
    if a.RenderFrame? || a.NoDecoder? {
      FillFindings(s, dec, u, a);
    } else if a.GetInfo? || a.CallDecode? {
      PoolFindings(s.pool, u, Pool.Request(if a.GetInfo? then Pool.Req(s.sessions[u].value.id, a.fmt, -1) else RequestFor(s.cache.pcs[u].key)));
    } else if a.GetBuffer? {
      CacheFindings(s.cache, u, Cache.Lookup(a.key));
    }
  }

  lemma FillFindings(s: State, dec: Decoding, u: Tid, a: Action)
    requires Enabled(s, dec, u, a) && (a.RenderFrame? || a.NoDecoder?)
    requires Found(s.cache.lines, s.cache.pcs[u]) && Given(s.pool.objs, s.pool.pcs[u])
    ensures var s' := Do(s, dec, u, a);
      Found(s'.cache.lines, s'.cache.pcs[u]) && Given(s'.pool.objs, s'.pool.pcs[u])
  {
    if a.RenderFrame? {
      CacheFindings(s.cache, u, Cache.Write(a.rv, a.picture));
      PoolFindings(s.pool, u, Pool.Render(0, s.pool.pcs[u].req.frame));
    } else {
      CacheFindings(s.cache, u, Cache.Write(s.pool.pcs[u].out.err, Garbage(s, dec)));
      PoolFindings(s.pool, u, Pool.BusyDec);
    }
  }

  lemma OtherThreads(s: State, dec: Decoding, u: Tid, a: Action, t: Tid)
    requires Enabled(s, dec, u, a) && t != u
    ensures var s' := Do(s, dec, u, a);
      && (t in s'.cache.pcs ==> t in s.cache.pcs && s'.cache.pcs[t] == s.cache.pcs[t])
      && (t in s'.pool.pcs ==> t in s.pool.pcs && s'.pool.pcs[t] == s.pool.pcs[t])
  {
  }

  lemma QuietStep(s: State, dec: Decoding, u: Tid, a: Action)
    requires Findings(s) && Enabled(s, dec, u, a) && Quiet(s, dec, u, a)
    ensures Findings(Do(s, dec, u, a))
  {
    var s' := Do(s, dec, u, a);
    MoverFindings(s, dec, u, a);
    forall t | t in s'.cache.pcs ensures Found(s'.cache.lines, s'.cache.pcs[t]) {
      if t != u {
        OtherThreads(s, dec, u, a, t);
        assert LeavesAlone(s, s', t) && Found(s.cache.lines, s.cache.pcs[t]);
      }
    }
    forall t | t in s'.pool.pcs ensures Given(s'.pool.objs, s'.pool.pcs[t]) {
      if t != u {
        OtherThreads(s, dec, u, a, t);
        assert LeavesAlone(s, s', t) && Given(s.pool.objs, s.pool.pcs[t]);
      }
    }
  }

  lemma QuietIsFresh(s: State, dec: Decoding, u: Tid, a: Action)
    requires Inv(s, dec) && Findings(s) && Enabled(s, dec, u, a) && Quiet(s, dec, u, a)
    ensures Fresh(s, dec, u, a)
  {
    assert ThreadGood(s, dec, u);
    assert Found(s.cache.lines, s.cache.pcs[u]) && Given(s.pool.objs, s.pool.pcs[u]);
  }

  // ---------------------------------------------------------------------------------
  // What holds in every quiet run

  ghost predicate QuietAt(dec: Decoding, states: seq<State>, steps: seq<(Tid, Action)>, i: nat)
    requires |states| == |steps| + 1
  {
    i < |steps| ==>
      && Enabled(states[i], dec, steps[i].0, steps[i].1)
      && Quiet(states[i], dec, steps[i].0, steps[i].1)
      && states[i + 1] == Do(states[i], dec, steps[i].0, steps[i].1)
  }

  /** No freshness is asked for here. */
  ghost predicate IsQuietRun(dec: Decoding, states: seq<State>, steps: seq<(Tid, Action)>)
  {
    && |states| == |steps| + 1 && Initial(states[0])
    && forall i {:trigger QuietAt(dec, states, steps, i)} :: QuietAt(dec, states, steps, i)
  }

  lemma {:induction false} QuietRunKeeps(dec: Decoding, states: seq<State>, steps: seq<(Tid, Action)>, i: nat)
    requires IsQuietRun(dec, states, steps) && i < |states|
    ensures Inv(states[i], dec) && Findings(states[i])
  {
    if i == 0 {
      InitialInv(states[0], dec);
    } else {
      QuietRunKeeps(dec, states, steps, i - 1);
      assert QuietAt(dec, states, steps, i - 1);
      QuietStepKeeps(states[i - 1], dec, steps[i - 1].0, steps[i - 1].1);
    }
  }

  lemma QuietStepKeeps(s: State, dec: Decoding, u: Tid, a: Action)
    requires Inv(s, dec) && Findings(s) && Enabled(s, dec, u, a) && Quiet(s, dec, u, a)
    ensures Inv(Do(s, dec, u, a), dec) && Findings(Do(s, dec, u, a))
  {
    QuietIsFresh(s, dec, u, a);
    StepKeepsInv(s, dec, u, a);
    QuietStep(s, dec, u, a);
  }

  /** Every quiet run is one whose steps are all fresh. */
  lemma QuietRunIsFresh(dec: Decoding, states: seq<State>, steps: seq<(Tid, Action)>)
    requires IsQuietRun(dec, states, steps)
    ensures IsRun(dec, states, steps)
  {
    forall i | 0 <= i < |steps|
      ensures Enabled(states[i], dec, steps[i].0, steps[i].1)
      ensures Fresh(states[i], dec, steps[i].0, steps[i].1)
      ensures states[i + 1] == Do(states[i], dec, steps[i].0, steps[i].1)
    {
      assert QuietAt(dec, states, steps, i);
      QuietRunKeeps(dec, states, steps, i);
      QuietIsFresh(states[i], dec, steps[i].0, steps[i].1);
    }
  }

  /** So what a client holds is the decoding of its own file, frame, size and format. */
  lemma QuietTransparency(dec: Decoding, states: seq<State>, steps: seq<(Tid, Action)>, i: nat, t: Tid)
    requires IsQuietRun(dec, states, steps) && i < |states| && t in states[i].sessions && t in states[i].cache.pcs
    requires states[i].cache.pcs[t].Hold? && states[i].cache.pcs[t].err == 0
    ensures var s, pc := states[i], states[i].cache.pcs[t];
      && s.sessions[t].Some? && pc.key.id == s.sessions[t].value.id
      && pc.l in s.cache.lines && s.cache.lines[pc.l].buf.Some?
      && s.cache.lines[pc.l].buf.value.content == Some(dec(s.sessions[t].value.file, pc.key.fmt, pc.key.frame, pc.key.w, pc.key.h))
  {
    QuietRunIsFresh(dec, states, steps);
    Transparency(dec, states, steps, i, t);
  }
}
