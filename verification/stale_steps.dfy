/**
  What becomes of a client's picture when a step is not fresh: exactly when the line that is
  pinned, the line that getcl returns early, the decoder object that is locked, and the
  object that `continue` claims will do all the same.  Runs in which they do not are in the
  modules CacheRuns and PoolRuns.
  */
module StaleSteps {
  import opened Wrappers
  import opened DecoderObject
  import opened FileIds
  import opened Server
  import Pool = DecoderPool
  import Cache = FrameCache

  type Tid = Server.Tid

  /** Two keys give the same picture whatever decoding does exactly if they ask for the same one. */
  lemma AllDecodingsAgreeIff(issued: map<nat, File>, a: Cache.Key, b: Cache.Key, p: Cache.Picture, q: Cache.Picture)
    requires a.id in issued && b.id in issued && p != q
    ensures (forall dec: Decoding :: Wanted(dec, issued[a.id], a) == Wanted(dec, issued[b.id], b)) <==> SameShot(issued, a, b)
  {
    var dec: Decoding := (f, fmt, frame, w, h) =>
      if f == issued[a.id] && fmt == a.fmt && frame == a.frame && w == a.w && h == a.h then p else q;
    assert Wanted(dec, issued[a.id], a) == p;
    assert !SameShot(issued, a, b) ==> Wanted(dec, issued[b.id], b) == q;
  }

  /**
    A client that pins the line it found gets what the line's key asks for, which is what it
    wants exactly if both keys give the same picture.
    */
  lemma PinnedPictureIff(s: State, dec: Decoding, t: Tid)
    requires Inv(s, dec) && Enabled(s, dec, t, CacheStep(Cache.PinLine)) && s.cache.lines[s.cache.pcs[t].l].valid
    ensures var k, x, c' := s.cache.pcs[t].key, s.cache.lines[s.cache.pcs[t].l], Cache.Do(s.cache, t, Cache.PinLine);
      && c'.pcs[t] == Cache.Hold(k, s.cache.pcs[t].l, 0) && c'.lines[s.cache.pcs[t].l].buf == x.buf
      && s.sessions[t].Some? && x.key.id in s.ids.issued && k.id in s.ids.issued && x.buf.Some?
      && (x.buf.value.content == Some(Wanted(dec, s.sessions[t].value.file, k)) <==>
          Wanted(dec, s.ids.issued[x.key.id], x.key) == Wanted(dec, s.ids.issued[k.id], k))
  {
    assert ThreadGood(s, dec, t);
    assert LineGood(s.ids.issued, dec, s.cache.lines[s.cache.pcs[t].l]);
  }

  /** So a step that is not fresh hands out the wrong picture for some decoding, and a fresh one for none. */
  lemma PinIsFreshIff(s: State, dec: Decoding, t: Tid, p: Cache.Picture, q: Cache.Picture)
    requires Inv(s, dec) && Enabled(s, dec, t, CacheStep(Cache.PinLine)) && s.cache.lines[s.cache.pcs[t].l].valid && p != q
    ensures var a, b := s.cache.lines[s.cache.pcs[t].l].key, s.cache.pcs[t].key;
      && a.id in s.ids.issued && b.id in s.ids.issued
      && (Fresh(s, dec, t, CacheStep(Cache.PinLine)) <==>
          forall d: Decoding :: Wanted(d, s.ids.issued[a.id], a) == Wanted(d, s.ids.issued[b.id], b))
  {
    assert ThreadGood(s, dec, t);
    assert LineGood(s.ids.issued, dec, s.cache.lines[s.cache.pcs[t].l]);
    AllDecodingsAgreeIff(s.ids.issued, s.cache.lines[s.cache.pcs[t].l].key, s.cache.pcs[t].key, p, q);
  }

  /**
    The early return of getcl (frame_cache.c line 76) as coded leaves the old key on the line.
    Once the requested frame has been decoded into it, the line is valid under the old key.
    It is good exactly if the old key has the same size and format, so that the buffer fits
    the key, and gives the same picture.
    */
  lemma EarlyLineIsGoodIff(s: State, dec: Decoding, t: Tid, l: Cache.Lid)
    requires Inv(s, dec) && Enabled(s, dec, t, CacheStep(Cache.EarlyLine(l))) && s.cache.pcs[t].key.id in s.ids.issued
    ensures var k, was := s.cache.pcs[t].key, s.cache.lines[l].key;
      var picture := Wanted(dec, s.ids.issued[k.id], k);
      var c1 := Cache.Do(s.cache, t, Cache.EarlyLine(l));
      var c2 := Cache.Do(c1, t, Cache.Write(0, picture));
      var c3 := Cache.Do(c2, t, Cache.Complete);
      && c3.pcs[t] == Cache.Hold(k, l, 0) && c3.lines[l].key == was && c3.lines[l].valid
      && (Sized(c3.lines[l]) <==> Cache.SameSize(was, k))
      && was.id in s.ids.issued
      && (LineGood(s.ids.issued, dec, c3.lines[l]) <==>
          Cache.SameSize(was, k) && Wanted(dec, s.ids.issued[was.id], was) == picture)
  {
    assert LineGood(s.ids.issued, dec, s.cache.lines[l]);
  }

  lemma EarlyLineIsFreshIff(s: State, dec: Decoding, t: Tid, l: Cache.Lid, p: Cache.Picture, q: Cache.Picture)
    requires Inv(s, dec) && Enabled(s, dec, t, CacheStep(Cache.EarlyLine(l))) && p != q
    ensures var a, b := s.cache.lines[l].key, s.cache.pcs[t].key;
      && a.id in s.ids.issued && b.id in s.ids.issued
      && (Fresh(s, dec, t, CacheStep(Cache.EarlyLine(l))) <==>
          Cache.SameSize(a, b) && forall d: Decoding :: Wanted(d, s.ids.issued[a.id], a) == Wanted(d, s.ids.issued[b.id], b))
  {
    assert ThreadGood(s, dec, t);
    assert LineGood(s.ids.issued, dec, s.cache.lines[l]);
    AllDecodingsAgreeIff(s.ids.issued, s.cache.lines[l].key, s.cache.pcs[t].key, p, q);
  }

  /** What a decoder object makes of a request for k: the frame and size asked for, of its own file and in its own format. */
  function Made(id: nat, fmt: int, k: Cache.Key): Cache.Key
  {
    Cache.Key(id, k.w, k.h, fmt, k.frame)
  }

  /** A thread about to lock an object for decoding fills a line. */
  lemma LocksToFill(s: State, dec: Decoding, t: Tid, now: int)
    requires Inv(s, dec) && Enabled(s, dec, t, PoolStep(Pool.LockObject(now))) && s.pool.pcs[t].req.frame >= 0
    ensures s.cache.pcs[t].Fill? && s.pool.pcs[t].req == RequestFor(s.cache.pcs[t].key)
    ensures s.cache.pcs[t].l in s.cache.lines && s.cache.pcs[t].key.fmt != NO_FMT && s.cache.pcs[t].key.id in s.ids.issued
    ensures ObjGood(s.ids.issued, s.pool.objs[s.pool.pcs[t].o])
  {
    assert ThreadGood(s, dec, t);
    assert ObjGood(s.ids.issued, s.pool.objs[s.pool.pcs[t].o]);
  }

  /** Holding a decoder to fill a line, a thread writes what the decoder was opened for. */
  lemma HolderWrites(s: State, dec: Decoding, t: Tid, picture: Cache.Picture, d: Decoder)
    requires Known(s, t) && s.cache.pcs[t].Fill? && s.cache.pcs[t].l in s.cache.lines
    requires s.pool.pcs[t].HoldDecoder? && s.pool.pcs[t].o in s.pool.objs && s.pool.objs[s.pool.pcs[t].o].decoder == Some(d)
    requires s.pool.pcs[t].req == RequestFor(s.cache.pcs[t].key)
    ensures var k := s.cache.pcs[t].key;
      Enabled(s, dec, t, RenderFrame(0, picture)) <==> picture == dec(d.file, d.fmt, k.frame, k.w, k.h)
  {
  }

  lemma TakesDecoder(p: Pool.Pool, t: Tid, now: int) returns (p1: Pool.Pool, p2: Pool.Pool)
    requires Pool.Enabled(p, t, Pool.LockObject(now)) && p.lockBusy == None
    requires AttemptResult(p.objs[p.pcs[t].o], p.pcs[t].req.frame).GotDecoder?
    ensures p1 == Pool.Do(p, t, Pool.LockObject(now))
    ensures Pool.Enabled(p1, t, Pool.BusyDec) && p2 == Pool.Do(p1, t, Pool.BusyDec)
    ensures p2.pcs == p.pcs[t := Pool.HoldDecoder(p.pcs[t].req, p.pcs[t].o)]
    ensures p.pcs[t].o in p2.objs && p2.objs[p.pcs[t].o].decoder == p.objs[p.pcs[t].o].decoder
    ensures p1.pcs[t] == Pool.Leave(p.pcs[t].req, Pool.HasDecoder(p.pcs[t].o))
  {
    p1 := Pool.Do(p, t, Pool.LockObject(now));
    p2 := Pool.Do(p1, t, Pool.BusyDec);
    assert p2.pcs == p.pcs[t := Pool.HoldDecoder(p.pcs[t].req, p.pcs[t].o)];
  }

  lemma OpensDecoder(p: Pool.Pool, t: Tid, now: int, file: File) returns (p1: Pool.Pool, p2: Pool.Pool, p3: Pool.Pool)
    requires Pool.Enabled(p, t, Pool.LockObject(now)) && p.lockBusy == None && p.pcs[t].req.frame >= 0
    requires AttemptResult(p.objs[p.pcs[t].o], p.pcs[t].req.frame).MustOpen?
    ensures p1 == Pool.Do(p, t, Pool.LockObject(now))
    ensures Pool.Enabled(p1, t, Pool.OpenOk(file)) && p2 == Pool.Do(p1, t, Pool.OpenOk(file))
    ensures Pool.Enabled(p2, t, Pool.BusyDec) && p3 == Pool.Do(p2, t, Pool.BusyDec)
    ensures p3.pcs == p.pcs[t := Pool.HoldDecoder(p.pcs[t].req, p.pcs[t].o)]
    ensures p.pcs[t].o in p3.objs && p3.objs[p.pcs[t].o].decoder == Some(Decoder(file, WantedFmt(p.pcs[t].req.fmt)))
    ensures p1.pcs[t] == Pool.Opening(p.pcs[t].req, p.pcs[t].o) && p1.objs[p.pcs[t].o].id == p.objs[p.pcs[t].o].id
    ensures p2.pcs[t] == Pool.Leave(p.pcs[t].req, Pool.HasDecoder(p.pcs[t].o))
  {
    p1 := Pool.Do(p, t, Pool.LockObject(now));
    p2, p3 := FinishesOpening(p1, t, file);
    assert p3.pcs == p.pcs[t := Pool.HoldDecoder(p.pcs[t].req, p.pcs[t].o)];
  }

  lemma FinishesOpening(p: Pool.Pool, t: Tid, file: File) returns (p1: Pool.Pool, p2: Pool.Pool)
    requires Pool.Enabled(p, t, Pool.OpenOk(file)) && p.lockBusy == None && p.pcs[t].req.frame >= 0
    ensures p1 == Pool.Do(p, t, Pool.OpenOk(file))
    ensures Pool.Enabled(p1, t, Pool.BusyDec) && p2 == Pool.Do(p1, t, Pool.BusyDec)
    ensures p2.pcs == p.pcs[t := Pool.HoldDecoder(p.pcs[t].req, p.pcs[t].o)]
    ensures p.pcs[t].o in p2.objs && p2.objs[p.pcs[t].o].decoder == Some(Decoder(file, WantedFmt(p.pcs[t].req.fmt)))
    ensures p1.pcs[t] == Pool.Leave(p.pcs[t].req, Pool.HasDecoder(p.pcs[t].o))
  {
    p1 := Pool.Do(p, t, Pool.OpenOk(file));
    p2 := Pool.Do(p1, t, Pool.BusyDec);
    assert p2.pcs == p.pcs[t := Pool.HoldDecoder(p.pcs[t].req, p.pcs[t].o)];
  }

  /**
    A thread that takes an open decoder to fill a line (the steps LockObject and BusyDec)
    writes what the object's file and format give.
    */
  lemma TakenDecoderMakes(s: State, dec: Decoding, t: Tid, now: int, picture: Cache.Picture)
    requires Inv(s, dec) && Enabled(s, dec, t, PoolStep(Pool.LockObject(now))) && s.pool.lockBusy == None
    requires var pc := s.pool.pcs[t]; pc.req.frame >= 0 && AttemptResult(s.pool.objs[pc.o], pc.req.frame).GotDecoder?
    ensures s.cache.pcs[t].Fill? && s.pool.objs[s.pool.pcs[t].o].id in s.ids.issued
    ensures var p1 := Pool.Do(s.pool, t, Pool.LockObject(now)); Pool.Enabled(p1, t, Pool.BusyDec)
    ensures var k, j := s.cache.pcs[t].key, s.pool.objs[s.pool.pcs[t].o];
      var p2 := Pool.Do(Pool.Do(s.pool, t, Pool.LockObject(now)), t, Pool.BusyDec);
      Enabled(s.(pool := p2), dec, t, RenderFrame(0, picture)) <==> picture == Wanted(dec, s.ids.issued[j.id], Made(j.id, j.fmt, k))
  {
    LocksToFill(s, dec, t, now);
    assert Pool.ObjectOk(s.pool.pcs, s.pool.pcs[t].o, s.pool.objs[s.pool.pcs[t].o]);
    var p1, p2 := TakesDecoder(s.pool, t, now);
    HolderWrites(s.(pool := p2), dec, t, picture, s.pool.objs[s.pool.pcs[t].o].decoder.value);
  }

  /** One that has to open the decoder first (LockObject, OpenOk and BusyDec) writes what the object's file gives. */
  lemma OpenedDecoderMakes(s: State, dec: Decoding, t: Tid, now: int, picture: Cache.Picture)
    requires Inv(s, dec) && Enabled(s, dec, t, PoolStep(Pool.LockObject(now))) && s.pool.lockBusy == None
    requires var pc := s.pool.pcs[t]; pc.req.frame >= 0 && AttemptResult(s.pool.objs[pc.o], pc.req.frame).MustOpen?
    requires s.pool.objs[s.pool.pcs[t].o].id in s.ids.idToFn
    ensures s.cache.pcs[t].Fill? && s.pool.objs[s.pool.pcs[t].o].id in s.ids.issued
    ensures var file, p1 := s.ids.idToFn[s.pool.objs[s.pool.pcs[t].o].id], Pool.Do(s.pool, t, Pool.LockObject(now));
      Pool.Enabled(p1, t, Pool.OpenOk(file)) && Pool.Enabled(Pool.Do(p1, t, Pool.OpenOk(file)), t, Pool.BusyDec)
    ensures var k, j := s.cache.pcs[t].key, s.pool.objs[s.pool.pcs[t].o];
      var file, p1 := s.ids.idToFn[j.id], Pool.Do(s.pool, t, Pool.LockObject(now));
      var p3 := Pool.Do(Pool.Do(p1, t, Pool.OpenOk(file)), t, Pool.BusyDec);
      Enabled(s.(pool := p3), dec, t, RenderFrame(0, picture)) <==> picture == Wanted(dec, s.ids.issued[j.id], Made(j.id, k.fmt, k))
  {
    LocksToFill(s, dec, t, now);
    var file := s.ids.idToFn[s.pool.objs[s.pool.pcs[t].o].id];
    assert IdOk(s.ids, s.pool.objs[s.pool.pcs[t].o].id);
    var p1, p2, p3 := OpensDecoder(s.pool, t, now, file);
    HolderWrites(s.(pool := p3), dec, t, picture, Decoder(file, s.cache.pcs[t].key.fmt));
  }

  /** Locking the object is fresh exactly if what it makes is what was asked for, whatever decoding does. */
  lemma LockIsFreshIff(s: State, dec: Decoding, t: Tid, now: int, p: Cache.Picture, q: Cache.Picture)
    requires Inv(s, dec) && Enabled(s, dec, t, PoolStep(Pool.LockObject(now))) && p != q
    requires var pc := s.pool.pcs[t];
      pc.req.frame >= 0 && (AttemptResult(s.pool.objs[pc.o], pc.req.frame).GotDecoder? || AttemptResult(s.pool.objs[pc.o], pc.req.frame).MustOpen?)
    ensures s.cache.pcs[t].Fill? && s.pool.objs[s.pool.pcs[t].o].id in s.ids.issued && s.cache.pcs[t].key.id in s.ids.issued
    ensures var k, j := s.cache.pcs[t].key, s.pool.objs[s.pool.pcs[t].o];
      var fmt := if AttemptResult(j, s.pool.pcs[t].req.frame).MustOpen? then k.fmt else j.fmt;
      Fresh(s, dec, t, PoolStep(Pool.LockObject(now))) <==>
        forall d: Decoding :: Wanted(d, s.ids.issued[j.id], Made(j.id, fmt, k)) == Wanted(d, s.ids.issued[k.id], k)
  {
    LocksToFill(s, dec, t, now);
    var k, j := s.cache.pcs[t].key, s.pool.objs[s.pool.pcs[t].o];
    var fmt := if AttemptResult(j, s.pool.pcs[t].req.frame).MustOpen? then k.fmt else j.fmt;
    AllDecodingsAgreeIff(s.ids.issued, Made(j.id, fmt, k), k, p, q);
  }

  // ---------------------------------------------------------------------------------
  // `continue`

  /** Is somebody opening the object in order to decode? */
  ghost predicate BeingOpened(p: Pool.Pool, o: Pool.Oid)
  {
    exists u :: u in p.pcs && OpensToDecode(p.pcs[u], o)
  }

  predicate OpensToDecode(pc: Pool.Pc, o: Pool.Oid)
  {
    pc.Opening? && pc.o == o && pc.req.frame >= 0
  }

  /**
    What a claimer must find in an object that is not blank any more: if it is open or being
    opened to decode, it is for the claimer's file, and if it is open, in its format.
    */
  ghost predicate ClaimFits(s: State, o: Pool.Oid, req: Pool.Req)
    requires o in s.pool.objs
  {
    var j := s.pool.objs[o];
    && (j.open ==> j.fmt == WantedFmt(req.fmt))
    && (j.open || BeingOpened(s.pool, o) ==> SameFile(s.ids.issued, j.id, req.id))
  }

  /** Claiming as coded leaves the whole consistent exactly if the claim fits. */
  lemma ClaimAsCodedKeepsInvIff(s: State, dec: Decoding, t: Tid)
    requires Inv(s, dec) && Known(s, t) && Pool.CanClaim(s.pool, t) && !Blank(s.pool.objs[s.pool.pcs[t].o])
    ensures Inv(s.(pool := Pool.ClaimAsCoded(s.pool, t)), dec) <==> ClaimFits(s, s.pool.pcs[t].o, s.pool.pcs[t].req)
  {
    var s', o := s.(pool := Pool.ClaimAsCoded(s.pool, t)), s.pool.pcs[t].o;
    assert ThreadGood(s, dec, t);
    if ClaimFits(s, o, s.pool.pcs[t].req) {
      FittingClaimKeepsInv(s, dec, t);
    } else {
      UnfitClaimBreaksInv(s, dec, t);
    }
  }

  lemma FittingClaimKeepsInv(s: State, dec: Decoding, t: Tid)
    requires Inv(s, dec) && Known(s, t) && Pool.CanClaim(s.pool, t) && !Blank(s.pool.objs[s.pool.pcs[t].o])
    requires ClaimFits(s, s.pool.pcs[t].o, s.pool.pcs[t].req)
    ensures Inv(s.(pool := Pool.ClaimAsCoded(s.pool, t)), dec)
  {
    var s', o, issued := s.(pool := Pool.ClaimAsCoded(s.pool, t)), s.pool.pcs[t].o, s.ids.issued;
    assert ThreadGood(s, dec, t);
    assert ObjGood(issued, s.pool.objs[o]);
    Pool.ClaimAsCodedKeepsInv(s.pool, t);
    forall x | x in s'.pool.objs ensures ObjGood(issued, s'.pool.objs[x]) {
      assert ObjGood(issued, s.pool.objs[x]);
    }
    forall u | u in s'.sessions ensures ThreadGood(s', dec, u) {
      assert ThreadGood(s, dec, u);
      if u != t {
        HolderKeepsObject(s, dec, t, u);
      }
    }
  }

  lemma HolderKeepsObject(s: State, dec: Decoding, t: Tid, u: Tid)
    requires Inv(s, dec) && Pool.CanClaim(s.pool, t) && ClaimFits(s, s.pool.pcs[t].o, s.pool.pcs[t].req)
    requires u != t && u in s.pool.pcs && RightObject(s.ids.issued, s.pool.objs, s.pool.pcs[u])
    ensures RightObject(s.ids.issued, Pool.ClaimAsCoded(s.pool, t).objs, s.pool.pcs[u])
  {
    var o, pc := s.pool.pcs[t].o, s.pool.pcs[u];
    if OpensToDecode(pc, o) {
      assert BeingOpened(s.pool, o);
    } else if Pool.Plays(pc, Pool.DecoderOf(o)) {
      assert Pool.ObjectOk(s.pool.pcs, o, s.pool.objs[o]);
      Pool.CountPositive(s.pool.pcs, u, Pool.DecoderOf(o));
      assert ReqOf(pc).value.fmt == s.pool.objs[o].fmt;
    }
  }

  lemma UnfitClaimBreaksInv(s: State, dec: Decoding, t: Tid)
    requires Inv(s, dec) && Known(s, t) && Pool.CanClaim(s.pool, t) && !Blank(s.pool.objs[s.pool.pcs[t].o])
    requires !ClaimFits(s, s.pool.pcs[t].o, s.pool.pcs[t].req)
    ensures !Inv(s.(pool := Pool.ClaimAsCoded(s.pool, t)), dec)
  {
    var s', o, issued := s.(pool := Pool.ClaimAsCoded(s.pool, t)), s.pool.pcs[t].o, s.ids.issued;
    assert ThreadGood(s, dec, t);
    assert ObjGood(issued, s.pool.objs[o]);
    assert Pool.ObjectOk(s.pool.pcs, o, s.pool.objs[o]);
    if s.pool.objs[o].open {
      assert !ObjGood(issued, s'.pool.objs[o]);
    } else {
      var u :| u in s.pool.pcs && OpensToDecode(s.pool.pcs[u], o);
      assert ThreadGood(s, dec, u);
      assert s'.pool.pcs[u] == s.pool.pcs[u];
      assert !RightObject(issued, s'.pool.objs, s'.pool.pcs[u]);
      assert !ThreadGood(s', dec, u);
    }
  }

  /** A thread that was given the object and has yet to lock it finds what it needs exactly if the claim was for the same. */
  lemma ClaimAsCodedStalesLockIff(s: State, dec: Decoding, t: Tid, u: Tid, now: int)
    requires Inv(s, dec) && Pool.CanClaim(s.pool, t) && u != t && s.pool.pcs[t].req.id in s.ids.issued
    requires Enabled(s, dec, u, PoolStep(Pool.LockObject(now))) && s.pool.pcs[u].o == s.pool.pcs[t].o
    requires Fresh(s, dec, u, PoolStep(Pool.LockObject(now))) && s.pool.pcs[u].req.frame >= 0
    requires var a := AttemptResult(s.pool.objs[s.pool.pcs[u].o], s.pool.pcs[u].req.frame); a.MustOpen? || a.GotDecoder?
    ensures var s' := s.(pool := Pool.ClaimAsCoded(s.pool, t));
      var mine, yours := s.pool.pcs[u].req, s.pool.pcs[t].req;
      && Enabled(s', dec, u, PoolStep(Pool.LockObject(now)))
      && (Fresh(s', dec, u, PoolStep(Pool.LockObject(now))) <==>
            && SameFile(s.ids.issued, yours.id, mine.id)
            && (AttemptResult(s.pool.objs[s.pool.pcs[u].o], mine.frame).GotDecoder? ==> WantedFmt(yours.fmt) == mine.fmt))
  {
    assert Pool.ObjectOk(s.pool.pcs, s.pool.pcs[u].o, s.pool.objs[s.pool.pcs[u].o]);
  }

  // What those get who have to do with the object that is claimed as coded

  /** A claimer for a frame fills a line. */
  lemma ClaimsToFill(s: State, dec: Decoding, t: Tid)
    requires Inv(s, dec) && Known(s, t) && Pool.CanClaim(s.pool, t) && s.pool.pcs[t].req.frame >= 0
    ensures s.cache.pcs[t].Fill? && s.pool.pcs[t].req == RequestFor(s.cache.pcs[t].key)
    ensures s.cache.pcs[t].l in s.cache.lines && s.cache.pcs[t].key.fmt != NO_FMT && s.cache.pcs[t].key.id in s.ids.issued
    ensures ObjGood(s.ids.issued, s.pool.objs[s.pool.pcs[t].o])
  {
    assert ThreadGood(s, dec, t);
    assert ObjGood(s.ids.issued, s.pool.objs[s.pool.pcs[t].o]);
  }

  /**
    The claimer of an open object, once it gets that decoder (at once, or in a later state `p`
    of the pool, if somebody held it), writes what the object gave before the claim.
    */
  lemma ClaimerGets(s: State, dec: Decoding, t: Tid, p: Pool.Pool, now: int, picture: Cache.Picture)
    requires Inv(s, dec) && Known(s, t) && Pool.CanClaim(s.pool, t) && s.pool.pcs[t].req.frame >= 0
    requires var j := s.pool.objs[s.pool.pcs[t].o]; j.open && t in p.pcs && StillOpen(p, t, s.pool.pcs[t], j.decoder)
    ensures s.cache.pcs[t].Fill? && s.pool.objs[s.pool.pcs[t].o].id in s.ids.issued
    ensures var p1 := Pool.Do(p, t, Pool.LockObject(now)); Pool.Enabled(p1, t, Pool.BusyDec)
    ensures var k, j := s.cache.pcs[t].key, s.pool.objs[s.pool.pcs[t].o];
      var p2 := Pool.Do(Pool.Do(p, t, Pool.LockObject(now)), t, Pool.BusyDec);
      Enabled(s.(pool := p2), dec, t, RenderFrame(0, picture)) <==> picture == Wanted(dec, s.ids.issued[j.id], Made(j.id, j.fmt, k))
  {
    ClaimsToFill(s, dec, t);
    assert Pool.ObjectOk(s.pool.pcs, s.pool.pcs[t].o, s.pool.objs[s.pool.pcs[t].o]);
    var p1, p2 := TakesDecoder(p, t, now);
    HolderWrites(s.(pool := p2), dec, t, picture, s.pool.objs[s.pool.pcs[t].o].decoder.value);
  }

  /** The claimer may take the decoder that was open when it claimed the object. */
  predicate StillOpen(p: Pool.Pool, t: Tid, claim: Pool.Pc, decoder: Option<Decoder>)
    requires t in p.pcs && claim.Claim?
  {
    && p.pcs[t] == Pool.Lock(claim.req, claim.o) && claim.o in p.objs && p.lockBusy == None
    && p.objs[claim.o].decoder == decoder && AttemptResult(p.objs[claim.o], claim.req.frame).GotDecoder?
  }

  /** At once, if nobody holds the decoder; and a release by who holds it makes it so. */
  lemma ClaimerIsNext(s: State, dec: Decoding, t: Tid, u: Tid)
    requires Inv(s, dec) && Pool.CanClaim(s.pool, t) && s.pool.pcs[t].req.frame >= 0 && s.pool.lockBusy == None
    requires s.pool.objs[s.pool.pcs[t].o].open
    ensures var o, p := s.pool.pcs[t].o, Pool.ClaimAsCoded(s.pool, t);
      && (StillOpen(p, t, s.pool.pcs[t], s.pool.objs[o].decoder) <==> !s.pool.objs[o].used)
      && (u in p.pcs && p.pcs[u].HoldDecoder? && p.pcs[u].o == o ==>
            && Pool.Enabled(p, u, Pool.Release)
            && StillOpen(Pool.Do(p, u, Pool.Release), t, s.pool.pcs[t], s.pool.objs[o].decoder))
  {
    assert Pool.ObjectOk(s.pool.pcs, s.pool.pcs[t].o, s.pool.objs[s.pool.pcs[t].o]);
  }

  /** So the claimer gets what it wants whatever decoding does exactly if the object was open for its file and in its format. */
  lemma ClaimerIsServedIff(s: State, dec: Decoding, t: Tid, p: Cache.Picture, q: Cache.Picture)
    requires Inv(s, dec) && Known(s, t) && Pool.CanClaim(s.pool, t) && s.pool.pcs[t].req.frame >= 0 && p != q
    requires s.pool.objs[s.pool.pcs[t].o].open
    ensures s.cache.pcs[t].Fill? && s.pool.objs[s.pool.pcs[t].o].id in s.ids.issued && s.cache.pcs[t].key.id in s.ids.issued
    ensures var k, j := s.cache.pcs[t].key, s.pool.objs[s.pool.pcs[t].o];
      (forall d: Decoding :: Wanted(d, s.ids.issued[j.id], Made(j.id, j.fmt, k)) == Wanted(d, s.ids.issued[k.id], k))
        <==> SameFile(s.ids.issued, j.id, k.id) && j.fmt == k.fmt
  {
    ClaimsToFill(s, dec, t);
    assert Pool.ObjectOk(s.pool.pcs, s.pool.pcs[t].o, s.pool.objs[s.pool.pcs[t].o]);
    var k, j := s.cache.pcs[t].key, s.pool.objs[s.pool.pcs[t].o];
    AllDecodingsAgreeIff(s.ids.issued, Made(j.id, j.fmt, k), k, p, q);
  }

  /** The claimer of a closed object opens it for its own file, and gets what it wants; unless it is being opened: then it picks again. */
  lemma ClosedClaimIsServed(s: State, dec: Decoding, t: Tid, now: int, picture: Cache.Picture)
    requires Inv(s, dec) && Known(s, t) && Pool.CanClaim(s.pool, t) && s.pool.pcs[t].req.frame >= 0 && s.pool.lockBusy == None
    requires !s.pool.objs[s.pool.pcs[t].o].open && s.pool.pcs[t].req.id in s.ids.idToFn
    ensures s.cache.pcs[t].Fill? && s.cache.pcs[t].key.id in s.ids.issued
    ensures var p := Pool.ClaimAsCoded(s.pool, t);
      Pool.Enabled(p, t, Pool.LockObject(now)) &&
      var p1 := Pool.Do(p, t, Pool.LockObject(now));
      if s.pool.objs[s.pool.pcs[t].o].pending then p1.pcs[t] == Pool.Pick(s.pool.pcs[t].req)
      else
        var file := s.ids.idToFn[s.pool.pcs[t].req.id];
        && Pool.Enabled(p1, t, Pool.OpenOk(file)) && Pool.Enabled(Pool.Do(p1, t, Pool.OpenOk(file)), t, Pool.BusyDec)
        && var p3 := Pool.Do(Pool.Do(p1, t, Pool.OpenOk(file)), t, Pool.BusyDec);
           (Enabled(s.(pool := p3), dec, t, RenderFrame(0, picture)) <==>
              picture == Wanted(dec, s.ids.issued[s.cache.pcs[t].key.id], s.cache.pcs[t].key))
  {
    ClaimsToFill(s, dec, t);
    var o, req := s.pool.pcs[t].o, s.pool.pcs[t].req;
    assert Pool.ObjectOk(s.pool.pcs, o, s.pool.objs[o]);
    assert IdOk(s.ids, req.id);
    if !s.pool.objs[o].pending {
      var file := s.ids.idToFn[req.id];
      var p1, p2, p3 := OpensDecoder(Pool.ClaimAsCoded(s.pool, t), t, now, file);
      HolderWrites(s.(pool := p3), dec, t, picture, Decoder(file, s.cache.pcs[t].key.fmt));
    }
  }

  /** Who holds the decoder of the object to fill a line still gets what it wants. */
  lemma HolderIsServed(s: State, dec: Decoding, t: Tid, u: Tid, picture: Cache.Picture)
    requires Inv(s, dec) && Pool.CanClaim(s.pool, t) && u != t && Known(s, u)
    requires s.cache.pcs[u].Fill? && s.pool.pcs[u].HoldDecoder? && s.pool.pcs[u].o == s.pool.pcs[t].o
    ensures s.cache.pcs[u].key.id in s.ids.issued
    ensures Enabled(s.(pool := Pool.ClaimAsCoded(s.pool, t)), dec, u, RenderFrame(0, picture)) <==>
      picture == Wanted(dec, s.ids.issued[s.cache.pcs[u].key.id], s.cache.pcs[u].key)
  {
    assert ThreadGood(s, dec, u);
    HeldDecoderFits(s, dec, u);
    var k := s.cache.pcs[u].key;
    HolderWrites(s.(pool := Pool.ClaimAsCoded(s.pool, t)), dec, u, picture, Decoder(s.ids.issued[k.id], k.fmt));
  }

  lemma OpensToFill(s: State, dec: Decoding, u: Tid)
    requires Inv(s, dec) && Known(s, u) && s.pool.pcs[u].Opening? && s.pool.pcs[u].req.frame >= 0
    ensures s.cache.pcs[u].Fill? && s.pool.pcs[u].req == RequestFor(s.cache.pcs[u].key) && s.pool.pcs[u].o in s.pool.objs
    ensures s.cache.pcs[u].l in s.cache.lines && s.cache.pcs[u].key.fmt != NO_FMT && s.cache.pcs[u].key.id in s.ids.issued
  {
    assert ThreadGood(s, dec, u) && Pool.ThreadOk(s.pool, u, s.pool.pcs[u]);
  }

  /** Who is opening the object to decode opens the claimer's file. */
  lemma OpenerGets(s: State, dec: Decoding, t: Tid, u: Tid, picture: Cache.Picture)
    requires Inv(s, dec) && Pool.CanClaim(s.pool, t) && u != t && Known(s, u) && s.pool.lockBusy == None
    requires OpensToDecode(s.pool.pcs[u], s.pool.pcs[t].o) && s.pool.pcs[t].req.id in s.ids.idToFn
    ensures s.cache.pcs[u].Fill? && s.pool.pcs[t].req.id in s.ids.issued && s.cache.pcs[u].key.id in s.ids.issued
    ensures var p, id := Pool.ClaimAsCoded(s.pool, t), s.pool.pcs[t].req.id;
      var file, k := s.ids.idToFn[id], s.cache.pcs[u].key;
      && Enabled(s.(pool := p), dec, u, PoolStep(Pool.OpenOk(file)))
      && Pool.Enabled(Pool.Do(p, u, Pool.OpenOk(file)), u, Pool.BusyDec)
      && var p2 := Pool.Do(Pool.Do(p, u, Pool.OpenOk(file)), u, Pool.BusyDec);
         (Enabled(s.(pool := p2), dec, u, RenderFrame(0, picture)) <==> picture == Wanted(dec, s.ids.issued[id], Made(id, k.fmt, k)))
  {
    OpensToFill(s, dec, u);
    assert IdOk(s.ids, s.pool.pcs[t].req.id);
    var p, file := Pool.ClaimAsCoded(s.pool, t), s.ids.idToFn[s.pool.pcs[t].req.id];
    var p1, p2 := FinishesOpening(p, u, file);
    HolderWrites(s.(pool := p2), dec, u, picture, Decoder(file, s.cache.pcs[u].key.fmt));
  }

  /** So it gets what it wants whatever decoding does exactly if the claimer is after the same file. */
  lemma OpenerIsServedIff(s: State, dec: Decoding, t: Tid, u: Tid, p: Cache.Picture, q: Cache.Picture)
    requires Inv(s, dec) && Pool.CanClaim(s.pool, t) && u != t && Known(s, u) && p != q
    requires OpensToDecode(s.pool.pcs[u], s.pool.pcs[t].o) && s.pool.pcs[t].req.id in s.ids.issued
    ensures s.cache.pcs[u].Fill? && s.cache.pcs[u].key.id in s.ids.issued
    ensures var k, id := s.cache.pcs[u].key, s.pool.pcs[t].req.id;
      (forall d: Decoding :: Wanted(d, s.ids.issued[id], Made(id, k.fmt, k)) == Wanted(d, s.ids.issued[k.id], k))
        <==> SameFile(s.ids.issued, id, k.id)
  {
    OpensToFill(s, dec, u);
    var k, id := s.cache.pcs[u].key, s.pool.pcs[t].req.id;
    AllDecodingsAgreeIff(s.ids.issued, Made(id, k.fmt, k), k, p, q);
  }
}
