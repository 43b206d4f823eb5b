/**
  The file-id map, the frame cache and the decoder pool together: what a client of
  vcache_get_buffer gets (libharvid/frame_cache.c, libharvid/decoder_ctrl.c).

  The frame cache and the pool are the protocols of the modules FrameCache and DecoderPool,
  run by the same threads.  Decoding is any fixed function of file, format, frame and size.
  Runs issue ids 1 to 65535 only: what happens once the 16-bit counter wraps is not modelled.
  */
module Server {
  import opened Wrappers
  import opened DecoderObject
  import FileIds
  import Pool = DecoderPool
  import Cache = FrameCache

  type Tid = nat

  /** file, pixel format, frame, width, height */
  type Decoding = (File, int, int, int, int) -> Cache.Picture

  datatype Session = Session(file: File, id: nat)

  datatype State = State(ids: FileIds.Ids, sessions: map<Tid, Option<Session>>,
                         cache: Cache.Cache, pool: Pool.Pool)

  datatype Action =
    | GetId(file: File, evict: File)             // dctrl_get_id; `evict` is the entry dropped from a full map
    | ForgetId(id: nat)                          // release_id, clearvid
    | GetInfo(fmt: int)                          // dctrl_get_info: a decoder for information only
    | GetBuffer(key: Cache.Key)                  // vcache_get_buffer
    | CacheStep(c: Cache.Action)
    | PoolStep(p: Pool.Action)
    | CallDecode                                 // fc_readcl calls dctrl_decode
    | RenderFrame(rv: int, picture: Cache.Picture)  // my_decode writes into the cache line
    | NoDecoder                                  // dctrl_get_decoder gave up inside dctrl_decode

  function Wanted(dec: Decoding, file: File, k: Cache.Key): Cache.Picture
  {
    dec(file, k.fmt, k.frame, k.w, k.h)
  }

  function RequestFor(k: Cache.Key): Pool.Req
  {
    Pool.Req(k.id, k.fmt, k.frame)
  }

  predicate Known(s: State, t: Tid)
  {
    t in s.sessions && t in s.cache.pcs && t in s.pool.pcs
  }

  /** Cache actions that run on their own, without the decoder pool. */
  predicate CacheOnly(c: Cache.Action)
  {
    !c.Lookup? && !c.Write?
  }

  predicate PoolOnly(p: Pool.Action)
  {
    !p.Request? && !p.Render?
  }

  predicate Enabled(s: State, dec: Decoding, t: Tid, a: Action)
  {
    Known(s, t) &&
    var cpc, ppc := s.cache.pcs[t], s.pool.pcs[t];
    match a
    case GetId(file, evict) =>
      && cpc.Idle? && ppc.Idle?
      && (file !in s.ids.fnToId ==> FileIds.CanIssue(s.ids, evict))
    case ForgetId(id) => true
    case GetInfo(_) => cpc.Idle? && ppc.Idle? && s.sessions[t].Some?
    case GetBuffer(key) =>
      && cpc.Idle? && ppc.Idle? && s.sessions[t].Some?
      && key.id == s.sessions[t].value.id && key.frame >= 0 && key.fmt != NO_FMT
    case CacheStep(c) => CacheOnly(c) && ppc.Idle? && Cache.Enabled(s.cache, t, c)
    case PoolStep(p) =>
      && PoolOnly(p) && (cpc.Idle? || cpc.Fill? || cpc.Filled?) && Pool.Enabled(s.pool, t, p)
      && (p.Clear? ==> cpc.Idle?)
      && (p.Release? ==> if ppc.HoldDecoder? then cpc.Filled? else cpc.Idle?)
      // my_open_movie opens what get_fn finds for the object's id
      && (p.OpenOk? ==> s.pool.objs[ppc.o].id in s.ids.idToFn && p.file == s.ids.idToFn[s.pool.objs[ppc.o].id])
      && (p.BusyDec? && ppc.out.Failed? ==> cpc.Idle?)
    case CallDecode => cpc.Fill? && ppc.Idle?
    case RenderFrame(rv, picture) =>
      && cpc.Fill? && cpc.l in s.cache.lines
      && ppc.HoldDecoder? && ppc.o in s.pool.objs && s.pool.objs[ppc.o].decoder.Some?
      && var d := s.pool.objs[ppc.o].decoder.value;
         (rv == 0 && picture == dec(d.file, d.fmt, ppc.req.frame, cpc.key.w, cpc.key.h)) || rv == -1
    case NoDecoder => cpc.Fill? && cpc.l in s.cache.lines && ppc.Leave? && ppc.out.Failed? && ppc.out.err > 0 && s.pool.lockBusy == None
  }

  /** get_id for a file that has none: evict if the map is full, issue the next id, clear its cache lines. */
  function IssueId(s: State, t: Tid, file: File, evict: File): State
    requires t in s.cache.pcs && s.cache.pcs[t].Idle?
  {
    s.(ids := FileIds.Issue(s.ids, file, evict),
       sessions := s.sessions[t := Some(Session(file, s.ids.next))],
       cache := Cache.Do(s.cache, t, Cache.ClearAll(s.ids.next)))
  }

  function Do(s: State, dec: Decoding, t: Tid, a: Action): State
    requires Enabled(s, dec, t, a)
  {
    var cpc, ppc := s.cache.pcs[t], s.pool.pcs[t];
    match a
    case GetId(file, evict) =>
      if file in s.ids.fnToId then s.(sessions := s.sessions[t := Some(Session(file, s.ids.fnToId[file]))])
      else IssueId(s, t, file, evict)
    case ForgetId(id) => s.(ids := FileIds.DropId(s.ids, id))
    case GetInfo(fmt) => s.(pool := Pool.Do(s.pool, t, Pool.Request(Pool.Req(s.sessions[t].value.id, fmt, -1))))
    case GetBuffer(key) => s.(cache := Cache.Do(s.cache, t, Cache.Lookup(key)))
    case CacheStep(c) => s.(cache := Cache.Do(s.cache, t, c))
    case PoolStep(p) => s.(pool := Pool.Do(s.pool, t, p))
    case CallDecode => s.(pool := Pool.Do(s.pool, t, Pool.Request(RequestFor(cpc.key))))
    case RenderFrame(rv, picture) =>
      s.(cache := Cache.Do(s.cache, t, Cache.Write(rv, picture)),
         pool := Pool.Do(s.pool, t, Pool.Render(0, ppc.req.frame)))
    case NoDecoder =>
      s.(cache := Cache.Do(s.cache, t, Cache.Write(ppc.out.err, Garbage(s, dec))),
         pool := Pool.Do(s.pool, t, Pool.BusyDec))
  }

  /** Whatever happens to be in a buffer that was not decoded into. */
  function Garbage(s: State, dec: Decoding): Cache.Picture
  {
    dec("", 0, 0, 0, 0)
  }

  predicate SameFile(issued: map<nat, File>, a: nat, b: nat)
  {
    a in issued && b in issued && issued[a] == issued[b]
  }

  /** Keys that ask for the same picture: same file, under whatever id, same frame, size and format. */
  predicate SameShot(issued: map<nat, File>, a: Cache.Key, b: Cache.Key)
  {
    SameFile(issued, a.id, b.id) && a.frame == b.frame && Cache.SameSize(a, b)
  }

  /**
    In three places the source acts on something it looked up before it took the lock.  The
    step is fresh if what it finds under the lock will still do: the line that is pinned, or
    that getcl returns without re-keying it, is for the picture asked for; the decoder object
    is for the file asked for and, if it is open, in the format asked for.
    */
  predicate Fresh(s: State, dec: Decoding, t: Tid, a: Action)
    requires Enabled(s, dec, t, a)
  {
    && (a.CacheStep? ==> FreshLine(s.ids.issued, s.cache, t, a.c))
    && (a.PoolStep? && a.p.LockObject? ==>
          FreshObject(s.ids.issued, s.pool.objs[s.pool.pcs[t].o], s.pool.pcs[t].req))
  }

  predicate FreshLine(issued: map<nat, File>, c: Cache.Cache, t: Tid, a: Cache.Action)
    requires Cache.Enabled(c, t, a)
  {
    && (a.PinLine? && c.lines[c.pcs[t].l].valid ==> SameShot(issued, c.lines[c.pcs[t].l].key, c.pcs[t].key))
    && (a.EarlyLine? ==> SameShot(issued, c.lines[a.l].key, c.pcs[t].key))
  }

  predicate FreshObject(issued: map<nat, File>, j: Jvo, req: Pool.Req)
  {
    req.frame >= 0 ==>
      && (AttemptResult(j, req.frame).MustOpen? ==> SameFile(issued, j.id, req.id))
      && (AttemptResult(j, req.frame).GotDecoder? ==> SameFile(issued, j.id, req.id) && j.fmt == req.fmt)
  }

  // ---------------------------------------------------------------------------------
  // The invariant

  predicate Shows(issued: map<nat, File>, dec: Decoding, x: Cache.Line, k: Cache.Key)
  {
    && k.id in issued && x.buf.Some?
    && x.buf.value.content == Some(Wanted(dec, issued[k.id], k))
  }

  /** The buffer was allocated for the size and format in the key. */
  predicate Sized(x: Cache.Line)
  {
    x.buf.Some? ==> x.buf.value.w == x.key.w && x.buf.value.h == x.key.h && x.buf.value.fmt == x.key.fmt
  }

  /** A valid line holds the picture that its key asks for, in a buffer of that size. */
  predicate LineGood(issued: map<nat, File>, dec: Decoding, x: Cache.Line)
  {
    && x.key.id in issued && Sized(x)
    && (x.valid ==> Shows(issued, dec, x, x.key))
  }

  /** An open decoder was opened for the file of the object's id. */
  predicate ObjGood(issued: map<nat, File>, j: Jvo)
  {
    && (j.valid ==> j.id in issued)
    && (j.decoder.Some? && j.open ==> j.valid && j.decoder.value == Decoder(issued[j.id], j.fmt))
  }

  /** The request a pool thread works for. */
  function ReqOf(pc: Pool.Pc): Option<Pool.Req>
  {
    match pc
    case Idle => None
    case PurgeWait(job) => job.gc
    case SweepWait(job) => job.gc
    case Sweep(job, _, _) => job.gc
    case _ => Some(pc.req)
  }

  /** The object that a decoding thread opens or holds is for the file of its request. */
  predicate RightObject(issued: map<nat, File>, objs: map<Pool.Oid, Jvo>, pc: Pool.Pc)
  {
    match pc
    case Opening(req, o) => req.frame >= 0 ==> HasFile(issued, objs, o, req.id)
    case Leave(req, HasDecoder(o)) => HasFile(issued, objs, o, req.id) && objs[o].fmt == req.fmt
    case HoldDecoder(req, o) => HasFile(issued, objs, o, req.id) && objs[o].fmt == req.fmt
    case _ => true
  }

  predicate HasFile(issued: map<nat, File>, objs: map<Pool.Oid, Jvo>, o: Pool.Oid, id: nat)
  {
    o in objs && SameFile(issued, objs[o].id, id)
  }

  /** What a thread does in the pool fits what it does in the cache. */
  predicate Tied(issued: map<nat, File>, cpc: Cache.Pc, ppc: Pool.Pc)
  {
    && (ReqOf(ppc).Some? ==>
          var req := ReqOf(ppc).value;
          && req.id in issued
          && (!cpc.Idle? ==> req == RequestFor(cpc.key))
          && (req.frame >= 0 ==> cpc.Fill? || cpc.Filled?)
          && (ppc.HoldDecoder? || (ppc.Leave? && ppc.out.HasDecoder?) ==> req.frame >= 0))
    && (!cpc.Idle? && !cpc.Fill? && !cpc.Filled? ==> ppc.Idle?)
    && (cpc.Filled? ==> ppc.Idle? || ppc.HoldDecoder?)
  }

  predicate CacheThreadGood(issued: map<nat, File>, dec: Decoding, lines: map<Cache.Lid, Cache.Line>,
                            ses: Option<Session>, cpc: Cache.Pc)
  {
    !cpc.Idle? ==>
      && ses.Some? && cpc.key.id == ses.value.id && ses.value.id in issued
      && cpc.key.frame >= 0 && cpc.key.fmt != NO_FMT
      && (Cache.Points(cpc) ==> cpc.l in lines)
      && (cpc.Fill? || cpc.Filled? ==> SameShot(issued, lines[cpc.l].key, cpc.key))
      && (cpc.Filled? && cpc.rv == 0 ==> Shows(issued, dec, lines[cpc.l], cpc.key))
      && (cpc.Hold? && cpc.err == 0 ==> SameShot(issued, lines[cpc.l].key, cpc.key) && lines[cpc.l].valid)
  }

  predicate SessionGood(issued: map<nat, File>, ses: Option<Session>)
  {
    ses.Some? ==> ses.value.id in issued && issued[ses.value.id] == ses.value.file
  }

  ghost predicate ThreadGood(s: State, dec: Decoding, t: Tid)
  {
    && Known(s, t)
    && SessionGood(s.ids.issued, s.sessions[t])
    && CacheThreadGood(s.ids.issued, dec, s.cache.lines, s.sessions[t], s.cache.pcs[t])
    && Tied(s.ids.issued, s.cache.pcs[t], s.pool.pcs[t])
    && RightObject(s.ids.issued, s.pool.objs, s.pool.pcs[t])
  }

  ghost predicate LinesGood(issued: map<nat, File>, dec: Decoding, lines: map<Cache.Lid, Cache.Line>)
  {
    forall l {:trigger LineGood(issued, dec, lines[l])} :: l in lines ==> LineGood(issued, dec, lines[l])
  }

  ghost predicate ObjsGood(issued: map<nat, File>, objs: map<Pool.Oid, Jvo>)
  {
    forall o {:trigger ObjGood(issued, objs[o])} :: o in objs ==> ObjGood(issued, objs[o])
  }

  ghost predicate Inv(s: State, dec: Decoding)
  {
    && Pool.Inv(s.pool) && Cache.Inv(s.cache) && FileIds.IdsOk(s.ids)
    && s.sessions.Keys == s.cache.pcs.Keys == s.pool.pcs.Keys
    && LinesGood(s.ids.issued, dec, s.cache.lines)
    && ObjsGood(s.ids.issued, s.pool.objs)
    && (forall t {:trigger ThreadGood(s, dec, t)} :: t in s.sessions ==> ThreadGood(s, dec, t))
  }

  ghost predicate Initial(s: State)
  {
    && s.ids == FileIds.NoIds(s.ids.size)
    && Cache.Initial(s.cache) && Pool.Initial(s.pool)
    && s.sessions.Keys == s.cache.pcs.Keys == s.pool.pcs.Keys
    && forall t :: t in s.sessions ==> s.sessions[t] == None
  }

  lemma InitialInv(s: State, dec: Decoding)
    requires Initial(s)
    ensures Inv(s, dec)
  {
    Pool.InitialInv(s.pool);
    Cache.InitialInv(s.cache);
    forall t | t in s.sessions ensures ThreadGood(s, dec, t) {
      assert t in s.cache.pcs && t in s.pool.pcs;
    }
    forall o | o in s.pool.objs ensures ObjGood(s.ids.issued, s.pool.objs[o]) {
    }
  }

  // ---------------------------------------------------------------------------------
  // Steps of the cache

  /** What the moving thread knows about the line it points to. */
  lemma FillsDecodingLine(c: Cache.Cache, t: Tid)
    requires Cache.Inv(c) && t in c.pcs && (c.pcs[t].Fill? || c.pcs[t].Filled?)
    ensures var l := c.pcs[t].l; l in c.lines && c.lines[l].decoding && !c.lines[l].valid
  {
    var l := c.pcs[t].l;
    assert Cache.ThreadOk(c, c.pcs[t]);
    assert Cache.LineOk(c, l, c.lines[l]);
    Cache.CountStep(c.pcs, t, Cache.Idle, Cache.FillerOf(l));
  }

  lemma LinesStayGood(issued: map<nat, File>, dec: Decoding, c: Cache.Cache, ses: Option<Session>, t: Tid, a: Cache.Action)
    requires Cache.Inv(c) && Cache.Enabled(c, t, a) && LinesGood(issued, dec, c.lines)
    requires CacheThreadGood(issued, dec, c.lines, ses, c.pcs[t])
    ensures LinesGood(issued, dec, Cache.Do(c, t, a).lines)
  {
    var lines' := Cache.Do(c, t, a).lines;
    var e := Cache.EffectOf(c, t, a);
    if c.pcs[t].Fill? || c.pcs[t].Filled? {
      FillsDecodingLine(c, t);
    }
    forall l | l in lines' ensures LineGood(issued, dec, lines'[l]) {
      if l in c.lines {
        assert LineGood(issued, dec, c.lines[l]);
      }
    }
  }

  lemma CacheBystander(issued: map<nat, File>, dec: Decoding, c: Cache.Cache, ses: Option<Session>, t: Tid, a: Cache.Action, u: Tid)
    requires Cache.Inv(c) && Cache.Enabled(c, t, a) && u in c.pcs && u != t
    requires CacheThreadGood(issued, dec, c.lines, ses, c.pcs[u])
    ensures CacheThreadGood(issued, dec, Cache.Do(c, t, a).lines, ses, Cache.Do(c, t, a).pcs[u])
  {
    if Cache.Points(c.pcs[u]) {
      Cache.PointedLineIsSafe(c, t, a, u);
    }
  }

  lemma CacheMover(issued: map<nat, File>, dec: Decoding, c: Cache.Cache, ses: Option<Session>, t: Tid, a: Cache.Action)
    requires Cache.Inv(c) && Cache.Enabled(c, t, a) && CacheOnly(a) && FreshLine(issued, c, t, a)
    requires CacheThreadGood(issued, dec, c.lines, ses, c.pcs[t])
    ensures CacheThreadGood(issued, dec, Cache.Do(c, t, a).lines, ses, Cache.Do(c, t, a).pcs[t])
  {
    Cache.StepKeepsInv(c, t, a);
    assert Cache.ThreadOk(Cache.Do(c, t, a), Cache.Do(c, t, a).pcs[t]);
  }

  lemma CacheStepKeepsInv(s: State, dec: Decoding, t: Tid, a: Cache.Action)
    requires Inv(s, dec) && Enabled(s, dec, t, CacheStep(a)) && Fresh(s, dec, t, CacheStep(a))
    ensures Inv(Do(s, dec, t, CacheStep(a)), dec)
  {
    var s' := Do(s, dec, t, CacheStep(a));
    assert ThreadGood(s, dec, t);
    Cache.StepKeepsInv(s.cache, t, a);
    LinesStayGood(s.ids.issued, dec, s.cache, s.sessions[t], t, a);
    forall u | u in s'.sessions ensures ThreadGood(s', dec, u) {
      assert ThreadGood(s, dec, u);
      if u == t {
        CacheMover(s.ids.issued, dec, s.cache, s.sessions[t], t, a);
      } else {
        CacheBystander(s.ids.issued, dec, s.cache, s.sessions[u], t, a, u);
      }
    }
  }

  // ---------------------------------------------------------------------------------
  // Steps of the pool

  predicate SaneRequest(issued: map<nat, File>, pc: Pool.Pc)
  {
    ReqOf(pc).Some? ==>
      var req := ReqOf(pc).value;
      req.id in issued && (req.frame >= 0 ==> req.fmt != NO_FMT)
  }

  lemma ObjsStayGood(issued: map<nat, File>, p: Pool.Pool, t: Tid, a: Pool.Action)
    requires Pool.Inv(p) && Pool.Enabled(p, t, a) && ObjsGood(issued, p.objs) && SaneRequest(issued, p.pcs[t])
    requires a.OpenOk? ==> var id := p.objs[p.pcs[t].o].id; id in issued && a.file == issued[id]
    ensures ObjsGood(issued, Pool.Do(p, t, a).objs)
  {
    var c := Pool.EffectOf(p, t, a).change;
    Pool.ChangeInRange(p, t, a);
    if c.Set? {
      assert ObjGood(issued, p.objs[c.o]);
      ChangedStaysGood(issued, p, t, a);
    }
    ObjsAfter(issued, p, c);
  }

  lemma ObjsAfter(issued: map<nat, File>, p: Pool.Pool, c: Pool.Change)
    requires ObjsGood(issued, p.objs) && (c.Set? ==> ObjGood(issued, c.j))
    ensures ObjsGood(issued, Pool.Objs(p, c))
  {
    var objs' := Pool.Objs(p, c);
    forall o | o in objs' ensures ObjGood(issued, objs'[o]) {
      if o in p.objs {
        assert ObjGood(issued, p.objs[o]);
      }
    }
  }

  predicate Cleans(a: Pool.Action)
  {
    a.RecycleLock? || a.ClaimLock? || a.SweepNext?
  }

  lemma ChangedStaysGood(issued: map<nat, File>, p: Pool.Pool, t: Tid, a: Pool.Action)
    requires Pool.Inv(p) && Pool.Enabled(p, t, a) && SaneRequest(issued, p.pcs[t]) && Pool.EffectOf(p, t, a).change.Set?
    requires a.OpenOk? ==> var id := p.objs[p.pcs[t].o].id; id in issued && a.file == issued[id]
    requires var o := Pool.EffectOf(p, t, a).change.o; o in p.objs && ObjGood(issued, p.objs[o])
    ensures ObjGood(issued, Pool.EffectOf(p, t, a).change.j)
  {
    Pool.ChangeInRange(p, t, a);
    if a.OpenOk? {
      OpensValidObject(p, t);
      OpenedIsGood(issued, p, t, a);
    } else if Cleans(a) {
      CleanedIsGood(issued, p, t, a);
    } else {
      KeptIsGood(issued, p, t, a);
    }
  }

  lemma OpenedIsGood(issued: map<nat, File>, p: Pool.Pool, t: Tid, a: Pool.Action)
    requires Pool.Enabled(p, t, a) && a.OpenOk?
    requires var j := p.objs[p.pcs[t].o]; j.valid && j.id in issued && a.file == issued[j.id]
    ensures ObjGood(issued, Pool.EffectOf(p, t, a).change.j)
  {
  }

  lemma CleanedIsGood(issued: map<nat, File>, p: Pool.Pool, t: Tid, a: Pool.Action)
    requires Pool.Enabled(p, t, a) && Cleans(a) && SaneRequest(issued, p.pcs[t]) && Pool.EffectOf(p, t, a).change.Set?
    requires var o := Pool.EffectOf(p, t, a).change.o; o in p.objs && ObjGood(issued, p.objs[o])
    ensures ObjGood(issued, Pool.EffectOf(p, t, a).change.j)
  {
  }

  lemma KeptIsGood(issued: map<nat, File>, p: Pool.Pool, t: Tid, a: Pool.Action)
    requires Pool.Enabled(p, t, a) && !Cleans(a) && !a.OpenOk? && Pool.EffectOf(p, t, a).change.Set?
    requires var o := Pool.EffectOf(p, t, a).change.o; o in p.objs && ObjGood(issued, p.objs[o])
    ensures ObjGood(issued, Pool.EffectOf(p, t, a).change.j)
  {
  }

  lemma OpensValidObject(p: Pool.Pool, t: Tid)
    requires Pool.Inv(p) && t in p.pcs && p.pcs[t].Opening?
    ensures var o := p.pcs[t].o; o in p.objs && p.objs[o].valid && p.objs[o].pending
  {
    var o := p.pcs[t].o;
    assert Pool.ThreadOk(p, t, p.pcs[t]);
    assert Pool.ObjectOk(p.pcs, o, p.objs[o]);
    Pool.CountStep(p.pcs, t, Pool.Idle, Pool.OpenerOf(o));
  }

  lemma PoolBystander(issued: map<nat, File>, p: Pool.Pool, t: Tid, a: Pool.Action, u: Tid)
    requires Pool.Inv(p) && Pool.Enabled(p, t, a) && u in p.pcs && u != t
    requires RightObject(issued, p.objs, p.pcs[u])
    ensures RightObject(issued, Pool.Do(p, t, a).objs, Pool.Do(p, t, a).pcs[u])
  {
    Pool.HeldKeepsKey(p, t, a, u);
    StaysRight(issued, p.objs, Pool.Objs(p, Pool.EffectOf(p, t, a).change), p.pcs[u]);
  }

  lemma StaysRight(issued: map<nat, File>, objs: map<Pool.Oid, Jvo>, objs': map<Pool.Oid, Jvo>, pc: Pool.Pc)
    requires RightObject(issued, objs, pc) && Pool.KeepsKey(pc, objs, objs')
    ensures RightObject(issued, objs', pc)
  {
  }

  lemma PoolMover(issued: map<nat, File>, p: Pool.Pool, t: Tid, a: Pool.Action)
    requires Pool.Enabled(p, t, a) && PoolOnly(a) && SaneRequest(issued, p.pcs[t])
    requires a.LockObject? ==> FreshObject(issued, p.objs[p.pcs[t].o], p.pcs[t].req)
    requires RightObject(issued, p.objs, p.pcs[t])
    ensures RightObject(issued, Pool.Do(p, t, a).objs, Pool.EffectOf(p, t, a).pc)
  {
  }

  /** Pool steps go on with the request that the thread works for, or finish it. */
  lemma SameRequest(p: Pool.Pool, t: Tid, a: Pool.Action)
    requires Pool.Enabled(p, t, a) && PoolOnly(a)
    ensures var pc, pc' := p.pcs[t], Pool.EffectOf(p, t, a).pc;
      && (ReqOf(pc').Some? ==> ReqOf(pc') == ReqOf(pc))
      && (HasDecoder(pc') ==> ReqOf(pc').value.frame >= 0 || HasDecoder(pc))
      && (a.Release? ==> pc'.Idle?)
  {
  }

  predicate HasDecoder(pc: Pool.Pc)
  {
    pc.HoldDecoder? || (pc.Leave? && pc.out.HasDecoder?)
  }

  lemma PoolTied(issued: map<nat, File>, p: Pool.Pool, t: Tid, a: Pool.Action, cpc: Cache.Pc)
    requires Pool.Enabled(p, t, a) && PoolOnly(a) && Tied(issued, cpc, p.pcs[t])
    requires cpc.Idle? || cpc.Fill? || cpc.Filled?
    requires cpc.Filled? ==> a.Release?
    ensures Tied(issued, cpc, Pool.Do(p, t, a).pcs[t])
  {
    SameRequest(p, t, a);
    StillTied(issued, cpc, p.pcs[t], Pool.EffectOf(p, t, a).pc);
  }

  lemma StillTied(issued: map<nat, File>, cpc: Cache.Pc, pc: Pool.Pc, pc': Pool.Pc)
    requires Tied(issued, cpc, pc) && (cpc.Idle? || cpc.Fill? || cpc.Filled?) && (cpc.Filled? ==> pc'.Idle?)
    requires (ReqOf(pc').Some? ==> ReqOf(pc') == ReqOf(pc)) && (HasDecoder(pc') ==> ReqOf(pc').value.frame >= 0 || HasDecoder(pc))
    ensures Tied(issued, cpc, pc')
  {
  }

  /** What the moving thread goes on with. */
  lemma PoolMoves(issued: map<nat, File>, p: Pool.Pool, t: Tid, a: Pool.Action, cpc: Cache.Pc)
    requires Pool.Enabled(p, t, a) && PoolOnly(a) && SaneRequest(issued, p.pcs[t])
    requires a.LockObject? ==> FreshObject(issued, p.objs[p.pcs[t].o], p.pcs[t].req)
    requires RightObject(issued, p.objs, p.pcs[t]) && Tied(issued, cpc, p.pcs[t])
    requires cpc.Idle? || cpc.Fill? || cpc.Filled?
    requires cpc.Filled? ==> a.Release?
    ensures RightObject(issued, Pool.Do(p, t, a).objs, Pool.Do(p, t, a).pcs[t]) && Tied(issued, cpc, Pool.Do(p, t, a).pcs[t])
  {
    PoolMover(issued, p, t, a);
    PoolTied(issued, p, t, a, cpc);
  }

  /** A thread in the pool works for a request for an issued id. */
  lemma ThreadIsSane(s: State, dec: Decoding, t: Tid)
    requires ThreadGood(s, dec, t)
    ensures SaneRequest(s.ids.issued, s.pool.pcs[t])
  {
  }

  lemma PoolPart(s: State, dec: Decoding, t: Tid, a: Pool.Action)
    requires Inv(s, dec) && Known(s, t) && Pool.Enabled(s.pool, t, a)
    requires ObjsGood(s.ids.issued, Pool.Do(s.pool, t, a).objs)
    requires Tied(s.ids.issued, s.cache.pcs[t], Pool.Do(s.pool, t, a).pcs[t])
    requires RightObject(s.ids.issued, Pool.Do(s.pool, t, a).objs, Pool.Do(s.pool, t, a).pcs[t])
    ensures Inv(s.(pool := Pool.Do(s.pool, t, a)), dec)
  {
    var s' := s.(pool := Pool.Do(s.pool, t, a));
    Pool.StepKeepsInv(s.pool, t, a);
    forall u | u in s'.sessions ensures ThreadGood(s', dec, u) {
      assert ThreadGood(s, dec, u);
      if u != t {
        PoolBystander(s.ids.issued, s.pool, t, a, u);
      }
    }
  }

  lemma PoolStepKeepsInv(s: State, dec: Decoding, t: Tid, a: Pool.Action)
    requires Inv(s, dec) && Enabled(s, dec, t, PoolStep(a)) && Fresh(s, dec, t, PoolStep(a))
    ensures Inv(Do(s, dec, t, PoolStep(a)), dec)
  {
    assert ThreadGood(s, dec, t);
    ThreadIsSane(s, dec, t);
    if a.OpenOk? {
      assert FileIds.IdOk(s.ids, s.pool.objs[s.pool.pcs[t].o].id);
    }
    FilledReleases(s, dec, t, a);
    ObjsStayGood(s.ids.issued, s.pool, t, a);
    PoolMoves(s.ids.issued, s.pool, t, a, s.cache.pcs[t]);
    PoolPart(s, dec, t, a);
  }

  /** A thread that has filled its line has only the decoder to give back. */
  lemma FilledReleases(s: State, dec: Decoding, t: Tid, a: Pool.Action)
    requires Enabled(s, dec, t, PoolStep(a)) && ThreadGood(s, dec, t)
    ensures s.cache.pcs[t].Filled? ==> a.Release?
  {
  }

  lemma RequestKeepsInv(s: State, dec: Decoding, t: Tid, a: Action)
    requires Inv(s, dec) && Enabled(s, dec, t, a) && (a.GetInfo? || a.CallDecode?)
    ensures Inv(Do(s, dec, t, a), dec)
  {
    assert ThreadGood(s, dec, t);
    var req := if a.GetInfo? then Pool.Req(s.sessions[t].value.id, a.fmt, -1) else RequestFor(s.cache.pcs[t].key);
    PoolPart(s, dec, t, Pool.Request(req));
  }

  // ---------------------------------------------------------------------------------
  // Steps of both

  lemma GetBufferKeepsInv(s: State, dec: Decoding, t: Tid, key: Cache.Key)
    requires Inv(s, dec) && Enabled(s, dec, t, GetBuffer(key))
    ensures Inv(Do(s, dec, t, GetBuffer(key)), dec)
  {
    var s', a := Do(s, dec, t, GetBuffer(key)), Cache.Lookup(key);
    assert ThreadGood(s, dec, t);
    Cache.StepKeepsInv(s.cache, t, a);
    LinesStayGood(s.ids.issued, dec, s.cache, s.sessions[t], t, a);
    forall u | u in s'.sessions ensures ThreadGood(s', dec, u) {
      assert ThreadGood(s, dec, u);
      if u != t {
        CacheBystander(s.ids.issued, dec, s.cache, s.sessions[u], t, a, u);
      }
    }
  }

  /** The decoder that a thread holds while it fills a line is open for the line's file and format. */
  lemma HeldDecoderFits(s: State, dec: Decoding, t: Tid)
    requires Inv(s, dec) && t in s.sessions && t in s.cache.pcs && t in s.pool.pcs
    requires s.cache.pcs[t].Fill? && s.pool.pcs[t].HoldDecoder?
    ensures var key, o := s.cache.pcs[t].key, s.pool.pcs[t].o;
      && key.id in s.ids.issued && o in s.pool.objs
      && s.pool.pcs[t].req == RequestFor(key)
      && s.pool.objs[o].decoder == Some(Decoder(s.ids.issued[key.id], key.fmt))
  {
    var o := s.pool.pcs[t].o;
    assert ThreadGood(s, dec, t);
    assert Pool.ThreadOk(s.pool, t, s.pool.pcs[t]);
    assert Pool.ObjectOk(s.pool.pcs, o, s.pool.objs[o]);
    assert ObjGood(s.ids.issued, s.pool.objs[o]);
    Pool.CountStep(s.pool.pcs, t, Pool.Idle, Pool.DecoderOf(o));
  }

  lemma WriteKeepsCacheGood(issued: map<nat, File>, dec: Decoding, c: Cache.Cache, ses: Option<Session>, t: Tid, rv: int, p: Cache.Picture)
    requires Cache.Inv(c) && t in c.pcs && c.pcs[t].Fill? && Cache.Enabled(c, t, Cache.Write(rv, p))
    requires CacheThreadGood(issued, dec, c.lines, ses, c.pcs[t])
    requires rv == 0 ==> var k := c.pcs[t].key; k.id in issued && p == Wanted(dec, issued[k.id], k)
    ensures var c' := Cache.Do(c, t, Cache.Write(rv, p));
      CacheThreadGood(issued, dec, c'.lines, ses, c'.pcs[t])
  {
  }

  lemma BothBystander(s: State, dec: Decoding, t: Tid, c: Cache.Action, p: Pool.Action, u: Tid)
    requires Pool.Inv(s.pool) && Cache.Inv(s.cache) && ThreadGood(s, dec, u) && u != t
    requires Cache.Enabled(s.cache, t, c) && Pool.Enabled(s.pool, t, p)
    ensures ThreadGood(s.(cache := Cache.Do(s.cache, t, c), pool := Pool.Do(s.pool, t, p)), dec, u)
  {
    CacheBystander(s.ids.issued, dec, s.cache, s.sessions[u], t, c, u);
    PoolBystander(s.ids.issued, s.pool, t, p, u);
  }

  /** A cache write together with a pool step. */
  lemma WriteWithPool(s: State, dec: Decoding, t: Tid, rv: int, picture: Cache.Picture, p: Pool.Action)
    requires Inv(s, dec) && Known(s, t) && s.cache.pcs[t].Fill?
    requires Cache.Enabled(s.cache, t, Cache.Write(rv, picture)) && Pool.Enabled(s.pool, t, p) && (p.Render? || p.BusyDec?)
    requires rv == 0 ==> var k := s.cache.pcs[t].key; k.id in s.ids.issued && picture == Wanted(dec, s.ids.issued[k.id], k)
    requires p.BusyDec? ==> s.pool.pcs[t].out.Failed?
    ensures Inv(s.(cache := Cache.Do(s.cache, t, Cache.Write(rv, picture)), pool := Pool.Do(s.pool, t, p)), dec)
  {
    var c := Cache.Write(rv, picture);
    assert ThreadGood(s, dec, t);
    Cache.StepKeepsInv(s.cache, t, c);
    Pool.StepKeepsInv(s.pool, t, p);
    LinesStayGood(s.ids.issued, dec, s.cache, s.sessions[t], t, c);
    ObjsStayGood(s.ids.issued, s.pool, t, p);
    BothThreads(s, dec, t, rv, picture, p);
  }

  lemma BothThreads(s: State, dec: Decoding, t: Tid, rv: int, picture: Cache.Picture, p: Pool.Action)
    requires Inv(s, dec) && Known(s, t) && s.cache.pcs[t].Fill?
    requires Cache.Enabled(s.cache, t, Cache.Write(rv, picture)) && Pool.Enabled(s.pool, t, p) && (p.Render? || p.BusyDec?)
    requires rv == 0 ==> var k := s.cache.pcs[t].key; k.id in s.ids.issued && picture == Wanted(dec, s.ids.issued[k.id], k)
    requires p.BusyDec? ==> s.pool.pcs[t].out.Failed?
    ensures var s' := s.(cache := Cache.Do(s.cache, t, Cache.Write(rv, picture)), pool := Pool.Do(s.pool, t, p));
      forall u :: u in s.sessions ==> ThreadGood(s', dec, u)
  {
    var s' := s.(cache := Cache.Do(s.cache, t, Cache.Write(rv, picture)), pool := Pool.Do(s.pool, t, p));
    assert ThreadGood(s, dec, t);
    WriteKeepsCacheGood(s.ids.issued, dec, s.cache, s.sessions[t], t, rv, picture);
    BothMover(s, dec, t, rv, picture, p);
    forall u | u in s.sessions && u != t ensures ThreadGood(s', dec, u) {
      assert ThreadGood(s, dec, u);
      BothBystander(s, dec, t, Cache.Write(rv, picture), p, u);
    }
  }

  lemma BothMover(s: State, dec: Decoding, t: Tid, rv: int, picture: Cache.Picture, p: Pool.Action)
    requires ThreadGood(s, dec, t) && s.cache.pcs[t].Fill? && (p.Render? || p.BusyDec?)
    requires Cache.Enabled(s.cache, t, Cache.Write(rv, picture)) && Pool.Enabled(s.pool, t, p)
    requires p.BusyDec? ==> s.pool.pcs[t].out.Failed?
    requires var c' := Cache.Do(s.cache, t, Cache.Write(rv, picture));
      CacheThreadGood(s.ids.issued, dec, c'.lines, s.sessions[t], c'.pcs[t])
    ensures ThreadGood(s.(cache := Cache.Do(s.cache, t, Cache.Write(rv, picture)), pool := Pool.Do(s.pool, t, p)), dec, t)
  {
  }

  lemma FillKeepsInv(s: State, dec: Decoding, t: Tid, a: Action)
    requires Inv(s, dec) && Enabled(s, dec, t, a) && (a.RenderFrame? || a.NoDecoder?)
    ensures Inv(Do(s, dec, t, a), dec)
  {
    if a.RenderFrame? {
      HeldDecoderFits(s, dec, t);
      WriteWithPool(s, dec, t, a.rv, a.picture, Pool.Render(0, s.pool.pcs[t].req.frame));
    } else {
      WriteWithPool(s, dec, t, s.pool.pcs[t].out.err, Garbage(s, dec), Pool.BusyDec);
    }
  }

  // ---------------------------------------------------------------------------------
  // Steps of the id map

  /** What was good stays good when another id is issued. */
  lemma IssuedGrows(s: State, dec: Decoding, id: nat, file: File)
    requires Inv(s, dec) && id !in s.ids.issued
    ensures var issued := s.ids.issued[id := file];
      && LinesGood(issued, dec, s.cache.lines) && ObjsGood(issued, s.pool.objs)
      && forall t :: t in s.sessions ==> ThreadGood(s.(ids := s.ids.(issued := issued)), dec, t)
  {
    var issued := s.ids.issued[id := file];
    forall l | l in s.cache.lines ensures LineGood(issued, dec, s.cache.lines[l]) {
      assert LineGood(s.ids.issued, dec, s.cache.lines[l]);
    }
    forall o | o in s.pool.objs ensures ObjGood(issued, s.pool.objs[o]) {
      assert ObjGood(s.ids.issued, s.pool.objs[o]);
    }
    forall t | t in s.sessions ensures ThreadGood(s.(ids := s.ids.(issued := issued)), dec, t) {
      assert ThreadGood(s, dec, t);
    }
  }

  lemma GetIdKeepsInv(s: State, dec: Decoding, t: Tid, file: File, evict: File)
    requires Inv(s, dec) && Enabled(s, dec, t, GetId(file, evict))
    ensures Inv(Do(s, dec, t, GetId(file, evict)), dec)
  {
    if file in s.ids.fnToId {
      KnownIdKeepsInv(s, dec, t, file);
    } else {
      NewIdKeepsInv(s, dec, t, file, evict);
    }
  }

  lemma KnownIdKeepsInv(s: State, dec: Decoding, t: Tid, file: File)
    requires Inv(s, dec) && Known(s, t) && s.cache.pcs[t].Idle? && s.pool.pcs[t].Idle? && file in s.ids.fnToId
    ensures Inv(s.(sessions := s.sessions[t := Some(Session(file, s.ids.fnToId[file]))]), dec)
  {
    var s' := s.(sessions := s.sessions[t := Some(Session(file, s.ids.fnToId[file]))]);
    assert FileIds.FileOk(s.ids, file) && FileIds.IdOk(s.ids, s.ids.fnToId[file]);
    forall u | u in s'.sessions ensures ThreadGood(s', dec, u) {
      assert ThreadGood(s, dec, u);
    }
  }

  lemma NewIdKeepsInv(s: State, dec: Decoding, t: Tid, file: File, evict: File)
    requires Inv(s, dec) && Known(s, t) && s.cache.pcs[t].Idle? && s.pool.pcs[t].Idle? && file !in s.ids.fnToId
    ensures Inv(IssueId(s, t, file, evict), dec)
  {
    var s', a := IssueId(s, t, file, evict), Cache.ClearAll(s.ids.next);
    FileIds.IssueKeepsIds(s.ids, file, evict);
    IssuedGrows(s, dec, s.ids.next, file);
    Cache.StepKeepsInv(s.cache, t, a);
    assert ThreadGood(s.(ids := s.ids.(issued := s'.ids.issued)), dec, t);
    LinesStayGood(s'.ids.issued, dec, s.cache, s.sessions[t], t, a);
    forall u | u in s'.sessions ensures ThreadGood(s', dec, u) {
      assert ThreadGood(s.(ids := s.ids.(issued := s'.ids.issued)), dec, u);
      if u != t {
        CacheBystander(s'.ids.issued, dec, s.cache, s.sessions[u], t, a, u);
      }
    }
  }

  lemma ForgetIdKeepsInv(s: State, dec: Decoding, t: Tid, id: nat)
    requires Inv(s, dec) && Enabled(s, dec, t, ForgetId(id))
    ensures Inv(Do(s, dec, t, ForgetId(id)), dec)
  {
    var s' := Do(s, dec, t, ForgetId(id));
    FileIds.DropIdKeepsIds(s.ids, id);
    forall u | u in s'.sessions ensures ThreadGood(s', dec, u) {
      assert ThreadGood(s, dec, u);
    }
  }

  /** Every fresh step of every thread keeps the invariant. */
  lemma StepKeepsInv(s: State, dec: Decoding, t: Tid, a: Action)
    requires Inv(s, dec) && Enabled(s, dec, t, a) && Fresh(s, dec, t, a)
    ensures Inv(Do(s, dec, t, a), dec)
  {
    match a
    case GetId(file, evict) => GetIdKeepsInv(s, dec, t, file, evict);
    case ForgetId(id) => ForgetIdKeepsInv(s, dec, t, id);
    case GetInfo(_) => RequestKeepsInv(s, dec, t, a);
    case GetBuffer(key) => GetBufferKeepsInv(s, dec, t, key);
    case CacheStep(c) => CacheStepKeepsInv(s, dec, t, c);
    case PoolStep(p) => PoolStepKeepsInv(s, dec, t, p);
    case CallDecode => RequestKeepsInv(s, dec, t, a);
    case RenderFrame(_, _) => FillKeepsInv(s, dec, t, a);
    case NoDecoder => FillKeepsInv(s, dec, t, a);
  }

  // ---------------------------------------------------------------------------------
  // What holds in every run

  /** A run whose steps are all fresh. */
  ghost predicate IsRun(dec: Decoding, states: seq<State>, steps: seq<(Tid, Action)>)
  {
    && |states| == |steps| + 1
    && Initial(states[0])
    && forall i :: 0 <= i < |steps| ==>
         && Enabled(states[i], dec, steps[i].0, steps[i].1)
         && Fresh(states[i], dec, steps[i].0, steps[i].1)
         && states[i + 1] == Do(states[i], dec, steps[i].0, steps[i].1)
  }

  lemma {:induction false} RunKeepsInv(dec: Decoding, states: seq<State>, steps: seq<(Tid, Action)>, i: nat)
    requires IsRun(dec, states, steps) && i < |states|
    ensures Inv(states[i], dec)
  {
    if i == 0 {
      InitialInv(states[0], dec);
    } else {
      RunKeepsInv(dec, states, steps, i - 1);
      StepKeepsInv(states[i - 1], dec, steps[i - 1].0, steps[i - 1].1);
    }
  }

  /**
    Cache transparency.  A client that got a buffer with err 0 holds a line whose contents are
    what decoding the frame from its file would give: in every state of every run, no matter
    whether the line was hit or missed, or the line or the decoder was used for something else before.
    */
  lemma Transparency(dec: Decoding, states: seq<State>, steps: seq<(Tid, Action)>, i: nat, t: Tid)
    requires IsRun(dec, states, steps) && i < |states| && t in states[i].sessions && t in states[i].cache.pcs
    requires states[i].cache.pcs[t].Hold? && states[i].cache.pcs[t].err == 0
    ensures var s, pc := states[i], states[i].cache.pcs[t];
      && s.sessions[t].Some? && pc.key.id == s.sessions[t].value.id
      && pc.l in s.cache.lines && s.cache.lines[pc.l].buf.Some?
      && s.cache.lines[pc.l].buf.value.content == Some(dec(s.sessions[t].value.file, pc.key.fmt, pc.key.frame, pc.key.w, pc.key.h))
  {
    var s, l := states[i], states[i].cache.pcs[t].l;
    RunKeepsInv(dec, states, steps, i);
    assert ThreadGood(s, dec, t);
    assert LineGood(s.ids.issued, dec, s.cache.lines[l]);
  }

  /** Right after an id is issued, no cache line carries it, and no object that is valid does. */
  lemma IssuedIdIsNew(dec: Decoding, s: State, t: Tid, file: File, evict: File, l: Cache.Lid, o: Pool.Oid)
    requires Inv(s, dec) && Enabled(s, dec, t, GetId(file, evict)) && file !in s.ids.fnToId
    ensures var s' := Do(s, dec, t, GetId(file, evict));
      && s.ids.next !in s.ids.issued && s'.ids.fnToId[file] == s.ids.next
      && (l in s'.cache.lines ==> s'.cache.lines[l].key.id != s.ids.next)
      && (o in s'.pool.objs && s'.pool.objs[o].valid ==> s'.pool.objs[o].id != s.ids.next)
  {
    if l in s.cache.lines {
      assert LineGood(s.ids.issued, dec, s.cache.lines[l]);
    }
    if o in s.pool.objs {
      assert ObjGood(s.ids.issued, s.pool.objs[o]);
    }
  }
}
