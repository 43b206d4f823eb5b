/**
  The decoder pool of libharvid/decoder_ctrl.c as a concurrent protocol.

  Any number of threads run requests for a decoder (dctrl_get_decoder and the release
  functions) and cache purges (clearjvo).  Every region between taking and giving up a lock
  is one atomic step, and each thread has a program counter saying which step is next.
  Purge modes 0 to 3 are covered.  Two places of the source look at objects without a lock
  (testjvd and the scan in getjvo); there the model lets the thread pick any object at all.
  */
module DecoderPool {
  import opened Wrappers
  import opened DecoderObject
  import opened Counting

  type Tid = nat
  type Oid = nat

  datatype Req = Req(id: nat, fmt: int, frame: int)

  /** A run of clearjvo; `gc` is the request on whose behalf getjvo started it. */
  datatype Job = Job(f: nat, id: int, age: int, gc: Option<Req>)

  datatype Outcome = HasDecoder(o: Oid) | HasInfo(o: Oid) | Failed(err: int)

  datatype Pc =
    | Idle
    // BUSYADD: before the purge test, and between the test and the increment
    | Check(req: Req)
    | Enter(req: Req)
    // between BUSYADD and BUSYDEC
    | Lookup(req: Req)                        // index lookup for information requests
    | InfoTry(req: Req, o: Oid)               // found in the index
    | Pick(req: Req)                          // testjvd or new_video_object
    | Scan(req: Req)                          // getjvo: choose an object
    | Recycle(req: Req, o: Oid)               // getjvo: take over o
    | Append(req: Req)                        // newjvo
    | Claim(req: Req, o: Oid)                 // new_video_object: lock what getjvo returned
    | Lock(req: Req, o: Oid)
    | Opening(req: Req, o: Oid)               // my_open_movie
    | Leave(req: Req, out: Outcome)           // BUSYDEC
    // using what was obtained
    | HoldDecoder(req: Req, o: Oid)
    | HoldInfo(req: Req, o: Oid)
    // clearjvo
    | PurgeWait(job: Job)                     // purge_in_progress counted, busycnt not yet seen at 0
    | SweepWait(job: Job)                     // about to take the list lock
    | Sweep(job: Job, pos: nat, now: int)     // about to visit the object at this list position

  datatype Pool = Pool(list: seq<Oid>, objs: map<Oid, Jvo>, busycnt: int, purging: int,
                       lockBusy: Option<Tid>, lockJvo: Option<Tid>, pcs: map<Tid, Pc>)

  datatype Action =
    | Request(req: Req)
    | SeeNoPurge
    | BusyAdd
    | IndexHit(o: Oid)
    | IndexMiss
    | InfoLock
    | PickObject(o: Oid)
    | PickNew
    | GiveUp
    | ScanPick(o: Oid)
    | ScanVictim(o: Oid)
    | ScanAppend
    | ScanNothing
    | RecycleLock(got: bool, full: bool)
    | AppendObject(o: Oid)
    | ClaimLock(got: bool)
    | LockObject(now: int)
    | OpenOk(file: File)
    | OpenFail
    | BusyDec
    | Render(now: int, frame: int)
    | Release
    | Clear(f: nat, id: int)
    | PurgeGo
    | SweepStart(now: int)
    | SweepNext
    | SweepEnd

  // ---------------------------------------------------------------------------------
  // Steps

  /** What one step does to the objects: nothing, update one, append a new one, or free one. */
  datatype Change = Keep | Set(o: Oid, j: Jvo) | New(o: Oid) | Free(pos: nat)

  /** Everything one step changes. */
  datatype Effect = Effect(pc: Pc, change: Change, busy: int, purge: int, lockBusy: Option<Tid>, lockJvo: Option<Tid>)

  predicate Skipped(job: Job, j: Jvo, now: int)
  {
    (job.id > 0 && j.id != job.id) || (job.age > 0 && j.lru + job.age > now)
  }

  /** What the thread does after an attempt on object `o`. */
  function NextPc(req: Req, o: Oid, a: Attempt): Pc
  {
    match a
    case PickAgain => Pick(req)
    case MustOpen => Opening(req, o)
    case GotInfo => Leave(req, HasInfo(o))
    case GotDecoder => Leave(req, HasDecoder(o))
    case TryAgain => Lock(req, o)
  }

  function GcJob(req: Req): Job
  {
    Job(1, -1, 600, Some(req))
  }

  /** Can thread t do this now? */
  predicate Enabled(s: Pool, t: Tid, a: Action)
  {
    t in s.pcs &&
    var pc := s.pcs[t];
    match a
    case Request(_) => pc.Idle?
    case SeeNoPurge => pc.Check? && s.purging == 0
    case BusyAdd => pc.Enter? && s.lockBusy == None
    case IndexHit(o) => pc.Lookup? && pc.req.frame < 0 && o in s.objs
    case IndexMiss => pc.Lookup?
    case InfoLock => pc.InfoTry? && pc.o in s.objs
    case PickObject(o) => pc.Pick? && o in s.objs
    case PickNew => pc.Pick?
    case GiveUp => pc.Pick?
    case ScanPick(o) => pc.Scan? && o in s.objs
    case ScanVictim(o) => pc.Scan? && o in s.objs
    case ScanAppend => pc.Scan?
    case ScanNothing => pc.Scan?
    case RecycleLock(_, _) => pc.Recycle? && pc.o in s.objs
    case AppendObject(o) => pc.Append? && s.lockJvo == None && o !in s.objs
    case ClaimLock(_) => pc.Claim? && pc.o in s.objs
    case LockObject(_) => pc.Lock? && pc.o in s.objs
    case OpenOk(_) => pc.Opening? && pc.o in s.objs
    case OpenFail => pc.Opening? && pc.o in s.objs
    case BusyDec => pc.Leave? && s.lockBusy == None
    case Render(_, _) => pc.HoldDecoder? && pc.o in s.objs
    case Release => (pc.HoldDecoder? || pc.HoldInfo?) && pc.o in s.objs
    case Clear(f, _) => pc.Idle? && f <= 3 && (f > 1 ==> s.lockBusy == None)
    case PurgeGo => pc.PurgeWait? && s.lockBusy == None && s.busycnt <= 0
    case SweepStart(_) => pc.SweepWait? && s.lockJvo == None
    case SweepNext =>
      && pc.Sweep? && pc.pos < |s.list| && s.list[pc.pos] in s.objs
      && var j := s.objs[s.list[pc.pos]];
         // mode 3 waits for a busy object
         Skipped(pc.job, j, pc.now) || pc.job.f < 3 || !Busy(j)
    case SweepEnd => pc.Sweep? && pc.pos >= |s.list|
  }

  /** A step that only moves the thread, and perhaps changes an object. */
  function Local(s: Pool, pc: Pc, change: Change): Effect
  {
    Effect(pc, change, 0, 0, s.lockBusy, s.lockJvo)
  }

  /** The visit of one object by clearjvo. */
  function Visit(s: Pool, job: Job, pos: nat, now: int): Effect
    requires pos < |s.list| && s.list[pos] in s.objs
  {
    var o := s.list[pos];
    var j := s.objs[o];
    if Skipped(job, j, now) || Busy(j) then Local(s, Sweep(job, pos + 1, now), Keep)
    // closed, taken off the list and freed
    else if job.f > 1 && pos > 0 then Local(s, Sweep(job, pos, now), Free(pos))
    else Local(s, Sweep(job, pos + 1, now), Set(o, Cleared(j, job.f)))
  }

  function EffectOf(s: Pool, t: Tid, a: Action): Effect
    requires Enabled(s, t, a)
  {
    var pc := s.pcs[t];
    match a
    case Request(req) => Local(s, Check(req), Keep)
    case SeeNoPurge => Local(s, Enter(pc.req), Keep)
    case BusyAdd => Local(s, Lookup(pc.req), Keep).(busy := 1)
    case IndexHit(o) => Local(s, InfoTry(pc.req, o), Keep)
    case IndexMiss => Local(s, Pick(pc.req), Keep)
    case InfoLock =>
      var j := s.objs[pc.o];
      if j.open && j.valid && !j.pending then
        Local(s, Leave(pc.req, HasInfo(pc.o)), Set(pc.o, AddInfo(j)))
      else Local(s, Lock(pc.req, pc.o), Keep)
    case PickObject(o) => Local(s, Lock(pc.req, o), Keep)
    case PickNew => Local(s, SweepWait(GcJob(pc.req)), Keep)
    case GiveUp => Local(s, Leave(pc.req, Failed(503)), Keep)
    case ScanPick(o) => Local(s, Claim(pc.req, o), Keep)
    case ScanVictim(o) => Local(s, Recycle(pc.req, o), Keep)
    case ScanAppend => Local(s, Append(pc.req), Keep)
    case ScanNothing => Local(s, Pick(pc.req), Keep)
    case RecycleLock(got, full) =>
      if got && !Busy(s.objs[pc.o]) then Local(s, Claim(pc.req, pc.o), Set(pc.o, Recycled(s.objs[pc.o])))
      else Local(s, if full then Pick(pc.req) else Append(pc.req), Keep)
    case AppendObject(o) => Local(s, Claim(pc.req, o), New(o))
    case ClaimLock(got) =>
      if got && Blank(s.objs[pc.o]) then
        Local(s, Lock(pc.req, pc.o), Set(pc.o, Claimed(s.objs[pc.o], pc.req.id, pc.req.fmt)))
      else Local(s, SweepWait(GcJob(pc.req)), Keep)
    case LockObject(now) =>
      var j := s.objs[pc.o];
      Local(s, NextPc(pc.req, pc.o, AttemptResult(j, pc.req.frame)), Set(pc.o, AfterAttempt(j, pc.req.frame, now)))
    case OpenOk(file) =>
      Local(s, Leave(pc.req, if pc.req.frame < 0 then HasInfo(pc.o) else HasDecoder(pc.o)),
            Set(pc.o, AfterOpen(s.objs[pc.o], pc.req.fmt, pc.req.frame, file)))
    case OpenFail => Local(s, Leave(pc.req, Failed(500)), Set(pc.o, AfterOpenFailed(s.objs[pc.o])))
    case BusyDec =>
      Local(s, match pc.out
               case HasDecoder(o) => HoldDecoder(pc.req, o)
               case HasInfo(o) => HoldInfo(pc.req, o)
               case Failed(_) => Idle, Keep).(busy := -1)
    case Render(now, frame) => Local(s, pc, Set(pc.o, s.objs[pc.o].(lru := now, frame := frame)))
    case Release =>
      Local(s, Idle, Set(pc.o, if pc.HoldDecoder? then AfterReleaseDecoder(s.objs[pc.o])
                               else AfterReleaseInfo(s.objs[pc.o])))
    case Clear(f, id) =>
      var job := Job(f, id, -1, None);
      if f > 1 then Local(s, PurgeWait(job), Keep).(purge := 1) else Local(s, SweepWait(job), Keep)
    case PurgeGo => Local(s, SweepWait(pc.job), Keep).(lockBusy := Some(t))
    case SweepStart(now) => Local(s, Sweep(pc.job, 0, now), Keep).(lockJvo := Some(t))
    case SweepNext => Visit(s, pc.job, pc.pos, pc.now)
    case SweepEnd =>
      if pc.job.gc.Some? then Local(s, Scan(pc.job.gc.value), Keep).(lockJvo := None)
      else if pc.job.f > 1 then Local(s, Idle, Keep).(lockJvo := None, lockBusy := None, purge := -1)
      else Local(s, Idle, Keep).(lockJvo := None)
  }

  function Objs(s: Pool, c: Change): map<Oid, Jvo>
  {
    match c
    case Keep => s.objs
    case Set(o, j) => s.objs[o := j]
    case New(o) => s.objs[o := NEW_JVO]
    case Free(pos) => if pos < |s.list| then s.objs - {s.list[pos]} else s.objs
  }

  function ListAfter(s: Pool, c: Change): seq<Oid>
  {
    match c
    case Keep => s.list
    case Set(_, _) => s.list
    case New(o) => s.list + [o]
    case Free(pos) => if pos < |s.list| then s.list[..pos] + s.list[pos + 1..] else s.list
  }

  function Apply(s: Pool, t: Tid, e: Effect): Pool
  {
    Pool(ListAfter(s, e.change), Objs(s, e.change), s.busycnt + e.busy, s.purging + e.purge,
         e.lockBusy, e.lockJvo, s.pcs[t := e.pc])
  }

  function Do(s: Pool, t: Tid, a: Action): Pool
    requires Enabled(s, t, a)
  {
    Apply(s, t, EffectOf(s, t, a))
  }

  // ---------------------------------------------------------------------------------
  // Counting threads

  datatype Role = InfoOf(o: Oid) | DecoderOf(o: Oid) | OpenerOf(o: Oid) | Inside | Purger | AtDoor

  predicate Plays(pc: Pc, role: Role)
  {
    match role
    case InfoOf(o) => (pc.Leave? && pc.out == HasInfo(o)) || (pc.HoldInfo? && pc.o == o)
    case DecoderOf(o) => (pc.Leave? && pc.out == HasDecoder(o)) || (pc.HoldDecoder? && pc.o == o)
    case OpenerOf(o) => pc.Opening? && pc.o == o
    // between BUSYADD and BUSYDEC
    case Inside =>
      || pc.Lookup? || pc.InfoTry? || pc.Pick? || pc.Scan? || pc.Recycle? || pc.Append?
      || pc.Claim? || pc.Lock? || pc.Opening? || pc.Leave?
      || ((pc.SweepWait? || pc.Sweep?) && pc.job.gc.Some?)
    case Purger => pc.PurgeWait? || ((pc.SweepWait? || pc.Sweep?) && pc.job.f > 1)
    // past the purge test, not yet counted in busycnt
    case AtDoor => pc.Enter?
  }

  ghost function Players(pcs: map<Tid, Pc>, role: Role): set<Tid>
  {
    set t | t in pcs && Plays(pcs[t], role)
  }

  ghost function Count(pcs: map<Tid, Pc>, role: Role): nat
  {
    |Players(pcs, role)|
  }

  lemma CountStep(pcs: map<Tid, Pc>, t: Tid, pc: Pc, role: Role)
    requires t in pcs
    ensures Count(pcs[t := pc], role) == Count(pcs, role) - One(Plays(pcs[t], role)) + One(Plays(pc, role))
    ensures Count(pcs, role) >= One(Plays(pcs[t], role))
  {
    OneMoves(Players(pcs, role), Players(pcs[t := pc], role), t);
  }

  lemma CountPositive(pcs: map<Tid, Pc>, t: Tid, role: Role)
    requires t in pcs && Plays(pcs[t], role)
    ensures Count(pcs, role) > 0
  {
    assert t in Players(pcs, role);
  }

  /** Two threads in the same role count for two. */
  lemma CountPair(pcs: map<Tid, Pc>, t: Tid, u: Tid, role: Role)
    requires t in pcs && u in pcs && t != u
    ensures Count(pcs, role) >= One(Plays(pcs[t], role)) + One(Plays(pcs[u], role))
  {
    TwoMembers(Players(pcs, role), t, u);
  }

  // ---------------------------------------------------------------------------------
  // The invariant

  /** The object a thread has a pointer to. */
  function Pointer(pc: Pc): Option<Oid>
  {
    match pc
    case InfoTry(_, o) => Some(o)
    case Recycle(_, o) => Some(o)
    case Claim(_, o) => Some(o)
    case Lock(_, o) => Some(o)
    case Opening(_, o) => Some(o)
    case Leave(_, HasDecoder(o)) => Some(o)
    case Leave(_, HasInfo(o)) => Some(o)
    case HoldDecoder(_, o) => Some(o)
    case HoldInfo(_, o) => Some(o)
    case _ => None
  }

  /** The flags of an object agree with the numbers of its info holders, decoder holders and openers. */
  predicate Consistent(j: Jvo, infos: int, decoders: int, openers: int)
  {
    && j.refcnt == infos >= 0
    && (j.info <==> j.refcnt > 0)
    && decoders == One(j.used)
    && openers == One(j.pending)
    && (j.pending ==> j.valid && !j.open && !j.used && !j.info)
    && (j.used || j.info ==> j.open)
    && (j.open ==> j.valid)
    && (j.open <==> j.decoder.Some?)
  }

  ghost predicate ObjectOk(pcs: map<Tid, Pc>, o: Oid, j: Jvo)
  {
    Consistent(j, Count(pcs, InfoOf(o)), Count(pcs, DecoderOf(o)), Count(pcs, OpenerOf(o)))
  }

  ghost predicate ThreadOk(s: Pool, t: Tid, pc: Pc)
  {
    && (Pointer(pc).Some? ==> Pointer(pc).value in s.objs)
    && JobOk(pc) && LocksOk(t, pc, s.lockJvo, s.lockBusy)
  }

  predicate JobOk(pc: Pc)
  {
    && ((pc.PurgeWait? || pc.SweepWait? || pc.Sweep?) ==> pc.job.f <= 3 && (pc.job.gc.Some? ==> pc.job.f == 1))
    && (pc.PurgeWait? ==> pc.job.f > 1)
  }

  predicate LocksOk(t: Tid, pc: Pc, lockJvo: Option<Tid>, lockBusy: Option<Tid>)
  {
    && (pc.Sweep? <==> lockJvo == Some(t))
    && ((pc.SweepWait? || pc.Sweep?) && pc.job.f > 1 <==> lockBusy == Some(t))
  }

  ghost predicate Inv(s: Pool)
  {
    // the list holds the allocated objects, each once, and is never empty
    && ListOk(s)
    && (forall o {:trigger ObjectOk(s.pcs, o, s.objs[o])} :: o in s.objs ==> ObjectOk(s.pcs, o, s.objs[o]))
    && (forall t {:trigger ThreadOk(s, t, s.pcs[t])} :: t in s.pcs ==> ThreadOk(s, t, s.pcs[t]))
    && (s.lockJvo.Some? ==> s.lockJvo.value in s.pcs)
    && (s.lockBusy.Some? ==> s.lockBusy.value in s.pcs && s.busycnt == 0)
    && s.busycnt == Count(s.pcs, Inside)
    && s.purging == Count(s.pcs, Purger)
  }

  /** dctrl_create: one blank root object, no thread doing anything. */
  ghost predicate Initial(s: Pool)
  {
    && |s.list| == 1 && s.objs == map[s.list[0] := NEW_JVO]
    && s.busycnt == 0 && s.purging == 0 && s.lockBusy == None && s.lockJvo == None
    && forall t :: t in s.pcs ==> s.pcs[t].Idle?
  }

  lemma InitialInv(s: Pool)
    requires Initial(s)
    ensures Inv(s)
  {
    forall role ensures Count(s.pcs, role) == 0 {
      assert Players(s.pcs, role) == {};
    }
    forall o | o in s.objs ensures ObjectOk(s.pcs, o, s.objs[o]) {
    }
  }

  /** Nobody can have a pointer to an object that is not allocated. */
  lemma NoPointerNoCount(s: Pool, o: Oid)
    requires Inv(s) && o !in s.objs
    ensures Count(s.pcs, InfoOf(o)) == Count(s.pcs, DecoderOf(o)) == Count(s.pcs, OpenerOf(o)) == 0
  {
    forall role | role in {InfoOf(o), DecoderOf(o), OpenerOf(o)} ensures Players(s.pcs, role) == {} {
      forall t | t in s.pcs ensures !Plays(s.pcs[t], role) {
        assert ThreadOk(s, t, s.pcs[t]);
      }
    }
  }

  /** A step changes an object of the list, appends a new one, or frees one that is not the root. */
  predicate InRange(s: Pool, c: Change)
  {
    match c
    case Keep => true
    case Set(o, _) => o in s.objs
    case New(o) => o !in s.objs
    case Free(pos) => 0 < pos < |s.list|
  }

  lemma ChangeInRange(s: Pool, t: Tid, a: Action)
    requires Enabled(s, t, a)
    ensures InRange(s, EffectOf(s, t, a).change)
  {
  }

  /** How a thread's move changes its part in the count of a role. */
  function Delta(pc: Pc, pc': Pc, role: Role): int
  {
    One(Plays(pc', role)) - One(Plays(pc, role))
  }

  /** The thread itself is among those counted. */
  predicate Counted(pc: Pc, o: Oid, infos: int, decoders: int, openers: int)
  {
    infos >= One(Plays(pc, InfoOf(o))) && decoders >= One(Plays(pc, DecoderOf(o))) && openers >= One(Plays(pc, OpenerOf(o)))
  }

  /** The object agrees with the counts that there are once the thread has moved. */
  predicate ConsistentAfter(pc: Pc, pc': Pc, o: Oid, j: Jvo, infos: int, decoders: int, openers: int)
  {
    Consistent(j, infos + Delta(pc, pc', InfoOf(o)), decoders + Delta(pc, pc', DecoderOf(o)), openers + Delta(pc, pc', OpenerOf(o)))
  }

  predicate KeptConsistent(s: Pool, t: Tid, a: Action, infos: int, decoders: int, openers: int)
    requires Enabled(s, t, a)
  {
    var e := EffectOf(s, t, a);
    (e.change.Set? && e.change.o in s.objs && Consistent(s.objs[e.change.o], infos, decoders, openers)
     && Counted(s.pcs[t], e.change.o, infos, decoders, openers)) ==>
      ConsistentAfter(s.pcs[t], e.pc, e.change.o, e.change.j, infos, decoders, openers)
  }

  lemma RequestsKeepConsistent(s: Pool, t: Tid, a: Action, infos: int, decoders: int, openers: int)
    requires Enabled(s, t, a) && (a.InfoLock? || a.LockObject?)
    ensures KeptConsistent(s, t, a, infos, decoders, openers)
  {
  }

  lemma OpeningsKeepConsistent(s: Pool, t: Tid, a: Action, infos: int, decoders: int, openers: int)
    requires Enabled(s, t, a) && (a.OpenOk? || a.OpenFail?)
    ensures KeptConsistent(s, t, a, infos, decoders, openers)
  {
  }

  lemma HoldersKeepConsistent(s: Pool, t: Tid, a: Action, infos: int, decoders: int, openers: int)
    requires Enabled(s, t, a) && (a.Render? || a.Release?)
    ensures KeptConsistent(s, t, a, infos, decoders, openers)
  {
  }

  lemma RecyclersKeepConsistent(s: Pool, t: Tid, a: Action, infos: int, decoders: int, openers: int)
    requires Enabled(s, t, a) && (a.RecycleLock? || a.ClaimLock? || a.SweepNext?)
    ensures KeptConsistent(s, t, a, infos, decoders, openers)
  {
  }

  /** The object that a step changes stays consistent with the counts that the step changes. */
  lemma ChangedObject(s: Pool, t: Tid, a: Action, infos: int, decoders: int, openers: int)
    requires Enabled(s, t, a)
    ensures KeptConsistent(s, t, a, infos, decoders, openers)
  {
    if a.InfoLock? || a.LockObject? {
      RequestsKeepConsistent(s, t, a, infos, decoders, openers);
    } else if a.OpenOk? || a.OpenFail? {
      OpeningsKeepConsistent(s, t, a, infos, decoders, openers);
    } else if a.Render? || a.Release? {
      HoldersKeepConsistent(s, t, a, infos, decoders, openers);
    } else if a.RecycleLock? || a.ClaimLock? || a.SweepNext? {
      RecyclersKeepConsistent(s, t, a, infos, decoders, openers);
    }
  }

  /** A step changes the roles of its thread for no other object. */
  lemma OtherObjects(s: Pool, t: Tid, a: Action, o: Oid)
    requires Enabled(s, t, a)
    requires var c := EffectOf(s, t, a).change; c.Set? ==> c.o != o
    ensures SameRoles(s.pcs[t], EffectOf(s, t, a).pc, o)
  {
  }

  /** If the object agrees with the counts as the thread's move changes them, it agrees with the counts after the move. */
  lemma ObjectMoves(pcs: map<Tid, Pc>, t: Tid, pc': Pc, o: Oid, j: Jvo)
    requires t in pcs && ConsistentAfter(pcs[t], pc', o, j, Count(pcs, InfoOf(o)), Count(pcs, DecoderOf(o)), Count(pcs, OpenerOf(o)))
    ensures ObjectOk(pcs[t := pc'], o, j)
  {
    CountStep(pcs, t, pc', InfoOf(o));
    CountStep(pcs, t, pc', DecoderOf(o));
    CountStep(pcs, t, pc', OpenerOf(o));
  }

  lemma MoverIsCounted(pcs: map<Tid, Pc>, t: Tid, o: Oid)
    requires t in pcs
    ensures Counted(pcs[t], o, Count(pcs, InfoOf(o)), Count(pcs, DecoderOf(o)), Count(pcs, OpenerOf(o)))
  {
    CountStep(pcs, t, Idle, InfoOf(o));
    CountStep(pcs, t, Idle, DecoderOf(o));
    CountStep(pcs, t, Idle, OpenerOf(o));
  }

  lemma ObjectStep(s: Pool, t: Tid, a: Action, o: Oid)
    requires Inv(s) && Enabled(s, t, a) && o in Do(s, t, a).objs
    ensures ObjectOk(Do(s, t, a).pcs, o, Do(s, t, a).objs[o])
  {
    var e := EffectOf(s, t, a);
    ChangeInRange(s, t, a);
    if e.change.Set? && e.change.o == o {
      assert ObjectOk(s.pcs, o, s.objs[o]);
      MoverIsCounted(s.pcs, t, o);
      ChangedObject(s, t, a, Count(s.pcs, InfoOf(o)), Count(s.pcs, DecoderOf(o)), Count(s.pcs, OpenerOf(o)));
    } else {
      OtherObjects(s, t, a, o);
    }
    EffectOnObject(s, t, e, o);
  }

  /** The same for any effect that changes an object in agreement with the counts, and no other counts. */
  lemma EffectOnObject(s: Pool, t: Tid, e: Effect, o: Oid)
    requires Inv(s) && t in s.pcs && InRange(s, e.change) && o in Objs(s, e.change)
    requires if e.change.Set? && e.change.o == o then Agrees(s, t, e, o) else SameRoles(s.pcs[t], e.pc, o)
    ensures ObjectOk(Apply(s, t, e).pcs, o, Apply(s, t, e).objs[o])
  {
    var j, infos, decoders, openers := Objs(s, e.change)[o], Count(s.pcs, InfoOf(o)), Count(s.pcs, DecoderOf(o)), Count(s.pcs, OpenerOf(o));
    if !(e.change.Set? && e.change.o == o) {
      if o in s.objs {
        assert ObjectOk(s.pcs, o, s.objs[o]);
        assert j == s.objs[o];
      } else {
        NoPointerNoCount(s, o);
        assert j == NEW_JVO;
      }
      assert Consistent(j, infos, decoders, openers);
    }
    ObjectMoves(s.pcs, t, e.pc, o, j);
  }

  predicate SameRoles(pc: Pc, pc': Pc, o: Oid)
  {
    Delta(pc, pc', InfoOf(o)) == Delta(pc, pc', DecoderOf(o)) == Delta(pc, pc', OpenerOf(o)) == 0
  }

  ghost predicate Agrees(s: Pool, t: Tid, e: Effect, o: Oid)
    requires t in s.pcs && e.change.Set?
  {
    ConsistentAfter(s.pcs[t], e.pc, o, e.change.j, Count(s.pcs, InfoOf(o)), Count(s.pcs, DecoderOf(o)), Count(s.pcs, OpenerOf(o)))
  }

  /** busycnt and purge_in_progress move together with the threads they count. */
  lemma Counters(s: Pool, t: Tid, a: Action)
    requires Enabled(s, t, a) && ThreadOk(s, t, s.pcs[t])
    ensures var e := EffectOf(s, t, a); e.busy == Delta(s.pcs[t], e.pc, Inside) && e.purge == Delta(s.pcs[t], e.pc, Purger)
  {
    BusyCounter(s, t, a);
    PurgeCounter(s, t, a);
  }

  lemma BusyCounter(s: Pool, t: Tid, a: Action)
    requires Enabled(s, t, a) && ThreadOk(s, t, s.pcs[t])
    ensures var e := EffectOf(s, t, a); e.busy == Delta(s.pcs[t], e.pc, Inside)
  {
  }

  lemma PurgeCounter(s: Pool, t: Tid, a: Action)
    requires Enabled(s, t, a) && ThreadOk(s, t, s.pcs[t])
    ensures var e := EffectOf(s, t, a); e.purge == Delta(s.pcs[t], e.pc, Purger)
  {
  }

  /** A purger that sweeps has the pool to itself: nobody else has a pointer to an idle object. */
  lemma FreedIsUnreferenced(s: Pool, t: Tid, a: Action, u: Tid)
    requires Inv(s) && Enabled(s, t, a) && EffectOf(s, t, a).change.Free?
    requires u in s.pcs && u != t
    ensures var pos := EffectOf(s, t, a).change.pos;
      0 < pos < |s.list| && Pointer(s.pcs[u]) != Some(s.list[pos])
  {
    var pos, pc := EffectOf(s, t, a).change.pos, s.pcs[u];
    var o := s.list[pos];
    assert ThreadOk(s, t, s.pcs[t]) && ObjectOk(s.pcs, o, s.objs[o]);
    if Plays(pc, Inside) { CountPositive(s.pcs, u, Inside); }
    if Plays(pc, InfoOf(o)) { CountPositive(s.pcs, u, InfoOf(o)); }
    if Plays(pc, DecoderOf(o)) { CountPositive(s.pcs, u, DecoderOf(o)); }
  }

  lemma MoverStep(s: Pool, t: Tid, a: Action)
    requires Enabled(s, t, a) && ThreadOk(s, t, s.pcs[t])
    ensures ThreadOk(Do(s, t, a), t, EffectOf(s, t, a).pc)
  {
    MoverPoints(s, t, a);
    MoverLocks(s, t, a);
  }

  predicate Locking(a: Action)
  {
    a.InfoLock? || a.LockObject? || a.OpenOk? || a.OpenFail? || a.Render? || a.Release?
  }

  predicate Choosing(a: Action)
  {
    a.RecycleLock? || a.ClaimLock? || a.AppendObject? || a.ScanPick? || a.ScanVictim? || a.PickObject? || a.IndexHit?
  }

  lemma LockerPoints(s: Pool, t: Tid, a: Action)
    requires Enabled(s, t, a) && Locking(a)
    ensures var e := EffectOf(s, t, a);
      JobOk(e.pc) && (Pointer(e.pc).Some? ==> Pointer(e.pc).value in Objs(s, e.change))
  {
  }

  lemma ChooserPoints(s: Pool, t: Tid, a: Action)
    requires Enabled(s, t, a) && Choosing(a)
    ensures var e := EffectOf(s, t, a);
      JobOk(e.pc) && (Pointer(e.pc).Some? ==> Pointer(e.pc).value in Objs(s, e.change))
  {
  }

  lemma MoverPoints(s: Pool, t: Tid, a: Action)
    requires Enabled(s, t, a) && ThreadOk(s, t, s.pcs[t])
    ensures var e := EffectOf(s, t, a);
      JobOk(e.pc) && (Pointer(e.pc).Some? ==> Pointer(e.pc).value in Objs(s, e.change))
  {
    if Locking(a) {
      LockerPoints(s, t, a);
    } else if Choosing(a) {
      ChooserPoints(s, t, a);
    }
  }

  lemma MoverLocks(s: Pool, t: Tid, a: Action)
    requires Enabled(s, t, a) && ThreadOk(s, t, s.pcs[t])
    ensures var e := EffectOf(s, t, a); LocksOk(t, e.pc, e.lockJvo, e.lockBusy)
  {
  }

  /** Thread t takes or gives up the lock, or leaves it alone. */
  predicate LockMoves(t: Tid, before: Option<Tid>, after: Option<Tid>)
  {
    after == before || (before == None && after == Some(t)) || (before == Some(t) && after == None)
  }

  lemma LocksMove(s: Pool, t: Tid, a: Action)
    requires Enabled(s, t, a) && ThreadOk(s, t, s.pcs[t])
    ensures var e := EffectOf(s, t, a);
      && LockMoves(t, s.lockJvo, e.lockJvo) && LockMoves(t, s.lockBusy, e.lockBusy)
      && (e.lockBusy != None ==> e.busy == 0 && (s.lockBusy == None ==> s.busycnt <= 0))
  {
  }

  /** A thread that does not move is as well off as before, if what it points to is still there. */
  lemma OthersStay(s: Pool, t: Tid, e: Effect, u: Tid)
    requires u in s.pcs && u != t && ThreadOk(s, u, s.pcs[u])
    requires LockMoves(t, s.lockJvo, e.lockJvo) && LockMoves(t, s.lockBusy, e.lockBusy)
    requires Pointer(s.pcs[u]).Some? ==> Pointer(s.pcs[u]).value in Objs(s, e.change)
    ensures ThreadOk(Apply(s, t, e), u, Apply(s, t, e).pcs[u])
  {
  }

  lemma BystanderStep(s: Pool, t: Tid, a: Action, u: Tid)
    requires Inv(s) && Enabled(s, t, a) && u in s.pcs && u != t
    ensures ThreadOk(Do(s, t, a), u, Do(s, t, a).pcs[u])
  {
    assert ThreadOk(s, t, s.pcs[t]) && ThreadOk(s, u, s.pcs[u]);
    LocksMove(s, t, a);
    if EffectOf(s, t, a).change.Free? {
      FreedIsUnreferenced(s, t, a, u);
    }
    OthersStay(s, t, EffectOf(s, t, a), u);
  }

  ghost predicate ListOk(s: Pool)
  {
    && s.list != []
    && (forall i, j :: 0 <= i < j < |s.list| ==> s.list[i] != s.list[j])
    && (forall o :: o in s.list <==> o in s.objs)
  }

  lemma ListStep(s: Pool, t: Tid, a: Action)
    requires Inv(s) && Enabled(s, t, a)
    ensures ListOk(Do(s, t, a)) && Do(s, t, a).list[0] == s.list[0]
  {
    ChangeInRange(s, t, a);
    ListMoves(s, t, EffectOf(s, t, a));
  }

  lemma ListMoves(s: Pool, t: Tid, e: Effect)
    requires ListOk(s) && InRange(s, e.change)
    ensures ListOk(Apply(s, t, e)) && Apply(s, t, e).list[0] == s.list[0]
  {
    if e.change.Free? { FreeFromList(s.list, e.change.pos); }
  }

  lemma FreeFromList(l: seq<Oid>, pos: nat)
    requires 0 < pos < |l| && forall i, j :: 0 <= i < j < |l| ==> l[i] != l[j]
    ensures var l' := l[..pos] + l[pos + 1..];
      && (forall i, j :: 0 <= i < j < |l'| ==> l'[i] != l'[j])
      && (forall o :: o in l' <==> o in l && o != l[pos])
  {
    var l' := l[..pos] + l[pos + 1..];
    forall o | o in l && o != l[pos] ensures o in l' {
      var k :| 0 <= k < |l| && l[k] == o;
      assert l'[if k < pos then k else k - 1] == o;
    }
  }

  /** Every step of every thread keeps the invariant. */
  lemma StepKeepsInv(s: Pool, t: Tid, a: Action)
    requires Inv(s) && Enabled(s, t, a)
    ensures Inv(Do(s, t, a))
  {
    var s', e := Do(s, t, a), EffectOf(s, t, a);
    assert ThreadOk(s, t, s.pcs[t]);
    ListStep(s, t, a);
    Counters(s, t, a);
    CountStep(s.pcs, t, e.pc, Inside);
    CountStep(s.pcs, t, e.pc, Purger);
    forall o | o in s'.objs ensures ObjectOk(s'.pcs, o, s'.objs[o]) {
      ObjectStep(s, t, a, o);
    }
    forall u | u in s'.pcs ensures ThreadOk(s', u, s'.pcs[u]) {
      if u == t { MoverStep(s, t, a); } else { BystanderStep(s, t, a, u); }
    }
    LockStep(s, t, a);
  }

  lemma LockStep(s: Pool, t: Tid, a: Action)
    requires Inv(s) && Enabled(s, t, a)
    ensures var s' := Do(s, t, a);
      && (s'.lockJvo.Some? ==> s'.lockJvo.value in s'.pcs)
      && (s'.lockBusy.Some? ==> s'.lockBusy.value in s'.pcs && s'.busycnt == 0)
  {
    assert ThreadOk(s, t, s.pcs[t]);
    LocksMove(s, t, a);
  }

  // ---------------------------------------------------------------------------------
  // What holds in every run

  /** A run: from the initial state, each state obtained from the one before by a step of some thread. */
  ghost predicate IsRun(states: seq<Pool>, steps: seq<(Tid, Action)>)
  {
    && |states| == |steps| + 1
    && Initial(states[0])
    && forall i :: 0 <= i < |steps| ==>
         Enabled(states[i], steps[i].0, steps[i].1) && states[i + 1] == Do(states[i], steps[i].0, steps[i].1)
  }

  lemma {:induction false} RunKeepsInv(states: seq<Pool>, steps: seq<(Tid, Action)>, i: nat)
    requires IsRun(states, steps) && i < |states|
    ensures Inv(states[i])
  {
    if i == 0 {
      InitialInv(states[0]);
    } else {
      RunKeepsInv(states, steps, i - 1);
      StepKeepsInv(states[i - 1], steps[i - 1].0, steps[i - 1].1);
    }
  }

  /** No two threads ever hold, or are about to hold, the same decoder for decoding. */
  lemma OneDecoderHolder(states: seq<Pool>, steps: seq<(Tid, Action)>, i: nat, t: Tid, u: Tid, o: Oid)
    requires IsRun(states, steps) && i < |states|
    requires t in states[i].pcs && u in states[i].pcs
    requires Plays(states[i].pcs[t], DecoderOf(o)) && Plays(states[i].pcs[u], DecoderOf(o))
    ensures t == u
  {
    var s := states[i];
    RunKeepsInv(states, steps, i);
    assert ThreadOk(s, t, s.pcs[t]);
    assert ObjectOk(s.pcs, o, s.objs[o]);
    if t != u { CountPair(s.pcs, t, u, DecoderOf(o)); }
  }

  /**
    What the visit of a sweep does: an object that is filtered out by its id, or was used less
    than `age` seconds ago, or is busy, stays as it is; else a purge frees it, unless it is the
    root, and otherwise it is closed, and has no file and no flags unless the mode is 0.
    */
  lemma SweepNextIs(s: Pool, t: Tid)
    requires Enabled(s, t, SweepNext)
    ensures var pc, s' := s.pcs[t], Do(s, t, SweepNext);
      var o := s.list[pc.pos];
      var j := s.objs[o];
      if (pc.job.id > 0 && j.id != pc.job.id) || (pc.job.age > 0 && j.lru + pc.job.age > pc.now) || j.used || j.pending || j.info then
        s'.objs == s.objs && s'.list == s.list
      else if pc.job.f >= 2 && pc.pos > 0 then
        s'.objs == s.objs - {o} && s'.list == s.list[..pc.pos] + s.list[pc.pos + 1..]
      else
        && s'.list == s.list && o in s'.objs && s'.objs == s.objs[o := s'.objs[o]]
        && !s'.objs[o].open && (j.open ==> s'.objs[o].decoder == None)
        && if pc.job.f == 0 then s'.objs[o].valid == j.valid && s'.objs[o].id == j.id && s'.objs[o].lru == j.lru
           else
             && !s'.objs[o].used && !s'.objs[o].valid && !s'.objs[o].pending && !s'.objs[o].info
             && s'.objs[o].id == 0 && s'.objs[o].lru == 0 && s'.objs[o].frame == -1
  {
  }

  /** While a purger sweeps, no thread is between BUSYADD and BUSYDEC. */
  lemma SweepIsExclusive(states: seq<Pool>, steps: seq<(Tid, Action)>, i: nat, t: Tid, u: Tid)
    requires IsRun(states, steps) && i < |states|
    requires t in states[i].pcs && states[i].pcs[t].Sweep? && states[i].pcs[t].job.f > 1
    requires u in states[i].pcs
    ensures !Plays(states[i].pcs[u], Inside) && states[i].busycnt == 0
    ensures states[i].pcs[u].Sweep? ==> u == t
  {
    var s := states[i];
    RunKeepsInv(states, steps, i);
    assert ThreadOk(s, t, s.pcs[t]) && ThreadOk(s, u, s.pcs[u]);
    if Plays(s.pcs[u], Inside) { CountPositive(s.pcs, u, Inside); }
  }

  /** Thread uses object o: it holds it, or is opening it. */
  predicate Uses(pc: Pc, o: Oid)
  {
    Plays(pc, DecoderOf(o)) || Plays(pc, InfoOf(o)) || Plays(pc, OpenerOf(o))
  }

  /** What a user of an object may rely on between two of its own steps. */
  predicate SafeFor(pc: Pc, o: Oid, j: Jvo, j': Jvo)
  {
    && j'.id == j.id && j'.fmt == j.fmt && j'.decoder == j.decoder && j'.valid && j'.open == j.open
    && (j.decoder.None? <==> Plays(pc, OpenerOf(o)))
    && (Plays(pc, OpenerOf(o)) ==> j'.pending)
    && (Plays(pc, DecoderOf(o)) ==> j'.used)
  }

  /** Both threads are among those counted. */
  predicate BothCounted(pc: Pc, pc2: Pc, o: Oid, infos: int, decoders: int, openers: int)
  {
    && infos >= One(Plays(pc, InfoOf(o))) + One(Plays(pc2, InfoOf(o)))
    && decoders >= One(Plays(pc, DecoderOf(o))) + One(Plays(pc2, DecoderOf(o)))
    && openers >= One(Plays(pc, OpenerOf(o))) + One(Plays(pc2, OpenerOf(o)))
  }

  lemma BothAreCounted(pcs: map<Tid, Pc>, t: Tid, u: Tid, o: Oid)
    requires t in pcs && u in pcs && t != u
    ensures BothCounted(pcs[t], pcs[u], o, Count(pcs, InfoOf(o)), Count(pcs, DecoderOf(o)), Count(pcs, OpenerOf(o)))
  {
    CountPair(pcs, t, u, InfoOf(o));
    CountPair(pcs, t, u, DecoderOf(o));
    CountPair(pcs, t, u, OpenerOf(o));
  }

  lemma RequestIsSafe(s: Pool, t: Tid, a: Action, pc: Pc, infos: int, decoders: int, openers: int)
    requires Enabled(s, t, a) && EffectOf(s, t, a).change.Set? && (a.InfoLock? || a.LockObject?)
    requires var o := EffectOf(s, t, a).change.o;
      && o in s.objs && Consistent(s.objs[o], infos, decoders, openers) && Uses(pc, o)
      && BothCounted(s.pcs[t], pc, o, infos, decoders, openers)
    ensures var c := EffectOf(s, t, a).change; SafeFor(pc, c.o, s.objs[c.o], c.j)
  {
  }

  lemma HolderIsSafe(s: Pool, t: Tid, a: Action, pc: Pc, infos: int, decoders: int, openers: int)
    requires Enabled(s, t, a) && EffectOf(s, t, a).change.Set? && (a.Render? || a.Release? || a.OpenOk? || a.OpenFail?)
    requires var o := EffectOf(s, t, a).change.o;
      && o in s.objs && Consistent(s.objs[o], infos, decoders, openers) && Uses(pc, o)
      && BothCounted(s.pcs[t], pc, o, infos, decoders, openers)
    ensures var c := EffectOf(s, t, a).change; SafeFor(pc, c.o, s.objs[c.o], c.j)
  {
  }

  lemma ChangeIsSafe(s: Pool, t: Tid, a: Action, pc: Pc, infos: int, decoders: int, openers: int)
    requires Enabled(s, t, a) && EffectOf(s, t, a).change.Set?
    requires var o := EffectOf(s, t, a).change.o;
      && o in s.objs && Consistent(s.objs[o], infos, decoders, openers) && Uses(pc, o)
      && BothCounted(s.pcs[t], pc, o, infos, decoders, openers)
    ensures var c := EffectOf(s, t, a).change; SafeFor(pc, c.o, s.objs[c.o], c.j)
  {
    if a.InfoLock? || a.LockObject? {
      RequestIsSafe(s, t, a, pc, infos, decoders, openers);
    } else if a.Render? || a.Release? || a.OpenOk? || a.OpenFail? {
      HolderIsSafe(s, t, a, pc, infos, decoders, openers);
    }
  }

  lemma UnchangedIsSafe(pc: Pc, o: Oid, j: Jvo, infos: int, decoders: int, openers: int)
    requires Consistent(j, infos, decoders, openers) && Uses(pc, o)
    requires infos >= One(Plays(pc, InfoOf(o))) && decoders >= One(Plays(pc, DecoderOf(o))) && openers >= One(Plays(pc, OpenerOf(o)))
    ensures SafeFor(pc, o, j, j)
  {
  }

  /** What a step does to the objects, for one object. */
  lemma ObjectAfter(s: Pool, t: Tid, a: Action, o: Oid)
    requires Enabled(s, t, a) && o in s.objs
    ensures var c, objs' := EffectOf(s, t, a).change, Do(s, t, a).objs;
      && (!c.Free? || s.list[c.pos] != o ==> o in objs')
      && (o in objs' ==> objs'[o] == if c.Set? && c.o == o then c.j else s.objs[o])
      && (c.Free? ==> 0 < c.pos < |s.list|)
  {
    ChangeInRange(s, t, a);
  }

  /** A held or opening decoder object is neither freed, closed, re-keyed nor given away by others. */
  lemma HeldIsSafe(s: Pool, t: Tid, a: Action, u: Tid, o: Oid)
    requires Inv(s) && Enabled(s, t, a) && u in s.pcs && u != t && Uses(s.pcs[u], o)
    ensures o in s.objs && o in Do(s, t, a).objs && SafeFor(s.pcs[u], o, s.objs[o], Do(s, t, a).objs[o])
  {
    var c := EffectOf(s, t, a).change;
    var infos, decoders, openers := Count(s.pcs, InfoOf(o)), Count(s.pcs, DecoderOf(o)), Count(s.pcs, OpenerOf(o));
    assert ThreadOk(s, u, s.pcs[u]);
    assert ObjectOk(s.pcs, o, s.objs[o]);
    BothAreCounted(s.pcs, t, u, o);
    ObjectAfter(s, t, a, o);
    if c.Free? {
      FreedIsUnreferenced(s, t, a, u);
    }
    if c.Set? && c.o == o {
      ChangeIsSafe(s, t, a, s.pcs[u], infos, decoders, openers);
    } else {
      UnchangedIsSafe(s.pcs[u], o, s.objs[o], infos, decoders, openers);
    }
  }

  /** So it keeps its id and format. */
  lemma HeldKeepsKey(s: Pool, t: Tid, a: Action, u: Tid)
    requires Inv(s) && Enabled(s, t, a) && u in s.pcs && u != t
    ensures KeepsKey(s.pcs[u], s.objs, Objs(s, EffectOf(s, t, a).change))
  {
    var p := Pointer(s.pcs[u]);
    if p.Some? && Uses(s.pcs[u], p.value) {
      HeldIsSafe(s, t, a, u, p.value);
    }
  }

  predicate KeepsKey(pc: Pc, objs: map<Oid, Jvo>, objs': map<Oid, Jvo>)
  {
    var p := Pointer(pc);
    p.Some? && Uses(pc, p.value) ==>
      p.value in objs && p.value in objs' && objs'[p.value].id == objs[p.value].id && objs'[p.value].fmt == objs[p.value].fmt
  }

  // ---------------------------------------------------------------------------------
  // `continue`, as coded

  predicate CanClaim(s: Pool, t: Tid)
  {
    t in s.pcs && s.pcs[t].Claim? && s.pcs[t].o in s.objs
  }

  /**
    new_video_object as coded: when the object that getjvo returned is not blank any more,
    `continue` leaves the do-while loop, and the object is claimed all the same.
    */
  function ClaimAsCoded(s: Pool, t: Tid): Pool
    requires CanClaim(s, t)
  {
    Apply(s, t, ClaimEffect(s, t))
  }

  function ClaimEffect(s: Pool, t: Tid): Effect
    requires CanClaim(s, t)
  {
    var req, o := s.pcs[t].req, s.pcs[t].o;
    Local(s, Lock(req, o), Set(o, Claimed(s.objs[o], req.id, req.fmt)))
  }

  lemma ClaimOnObject(s: Pool, t: Tid, o: Oid)
    requires Inv(s) && CanClaim(s, t) && !Blank(s.objs[s.pcs[t].o]) && o in s.objs
    ensures ObjectOk(ClaimAsCoded(s, t).pcs, o, ClaimAsCoded(s, t).objs[o])
  {
    assert ObjectOk(s.pcs, o, s.objs[o]);
    EffectOnObject(s, t, ClaimEffect(s, t), o);
  }

  lemma ClaimOnThread(s: Pool, t: Tid, u: Tid)
    requires Inv(s) && CanClaim(s, t) && u in s.pcs
    ensures ThreadOk(ClaimAsCoded(s, t), u, ClaimAsCoded(s, t).pcs[u])
  {
    assert ThreadOk(s, u, s.pcs[u]);
    if u != t {
      OthersStay(s, t, ClaimEffect(s, t), u);
    }
  }

  /** No flag and no count comes to harm: the invariant holds even so. */
  lemma ClaimAsCodedKeepsInv(s: Pool, t: Tid)
    requires Inv(s) && CanClaim(s, t) && !Blank(s.objs[s.pcs[t].o])
    ensures Inv(ClaimAsCoded(s, t))
  {
    var s', e := ClaimAsCoded(s, t), ClaimEffect(s, t);
    var o := s.pcs[t].o;
    assert ThreadOk(s, t, s.pcs[t]) && ObjectOk(s.pcs, o, s.objs[o]);
    CountStep(s.pcs, t, e.pc, Inside);
    CountStep(s.pcs, t, e.pc, Purger);
    ListMoves(s, t, e);
    forall x | x in s'.objs ensures ObjectOk(s'.pcs, x, s'.objs[x]) {
      ClaimOnObject(s, t, x);
    }
    forall u | u in s'.pcs ensures ThreadOk(s', u, s'.pcs[u]) {
      ClaimOnThread(s, t, u);
    }
  }

  /** The assertions in the source never fire (lines 424, 683, 727 and 345). */
  lemma AssertionsHold(s: Pool, t: Tid, a: Action)
    requires Inv(s) && Enabled(s, t, a)
    ensures a.RecycleLock? && a.got && !Busy(s.objs[s.pcs[t].o]) ==> s.objs[s.pcs[t].o].refcnt == 0
    ensures a.OpenFail? ==> s.objs[s.pcs[t].o].decoder == None
    ensures a.Release? && s.pcs[t].HoldInfo? ==> s.objs[s.pcs[t].o].refcnt >= 1
    ensures EffectOf(s, t, a).change.Free? ==> 0 < EffectOf(s, t, a).change.pos
  {
    var pc := s.pcs[t];
    ChangeInRange(s, t, a);
    if a.RecycleLock? || a.OpenFail? || a.Release? {
      assert ObjectOk(s.pcs, pc.o, s.objs[pc.o]);
      if a.OpenFail? { CountPositive(s.pcs, t, OpenerOf(pc.o)); }
      if pc.HoldInfo? { CountPositive(s.pcs, t, InfoOf(pc.o)); }
    }
  }

  // ---------------------------------------------------------------------------------
  // A purger waits out only boundedly many entries

  ghost function Entries(s: Pool): nat
  {
    2 * Count(s.pcs, AtDoor) + Count(s.pcs, Inside)
  }

  predicate EntersOrLeaves(a: Action)
  {
    a.BusyAdd? || a.BusyDec?
  }

  /** Once a purge is announced, the entries still to come only go down. */
  lemma PurgeClosesTheDoor(s: Pool, t: Tid, a: Action)
    requires Inv(s) && Enabled(s, t, a) && s.purging > 0
    ensures Entries(Do(s, t, a)) == Entries(s) - One(EntersOrLeaves(a))
  {
    var e := EffectOf(s, t, a);
    assert ThreadOk(s, t, s.pcs[t]);
    CountStep(s.pcs, t, e.pc, AtDoor);
    CountStep(s.pcs, t, e.pc, Inside);
    Counters(s, t, a);
    DoorDelta(s, t, a);
  }

  lemma DoorDelta(s: Pool, t: Tid, a: Action)
    requires Enabled(s, t, a)
    ensures Delta(s.pcs[t], EffectOf(s, t, a).pc, AtDoor) == if a.SeeNoPurge? then 1 else if a.BusyAdd? then -1 else 0
    ensures EffectOf(s, t, a).busy == if a.BusyAdd? then 1 else if a.BusyDec? then -1 else 0
    ensures a.SeeNoPurge? ==> s.purging == 0
  {
  }

  ghost function EntrySteps(steps: seq<(Tid, Action)>): nat
  {
    if steps == [] then 0 else One(EntersOrLeaves(steps[0].1)) + EntrySteps(steps[1..])
  }

  predicate Follows(states: seq<Pool>, steps: seq<(Tid, Action)>, i: nat)
    requires |states| == |steps| + 1
  {
    i < |steps| && Enabled(states[i], steps[i].0, steps[i].1) && states[i + 1] == Do(states[i], steps[i].0, steps[i].1)
  }

  /** Along any stretch of a run on which a purge is announced, at most Entries(start) threads enter or leave. */
  lemma {:induction false} PurgeWaitIsBounded(states: seq<Pool>, steps: seq<(Tid, Action)>)
    requires |states| == |steps| + 1 && Inv(states[0])
    requires forall i {:trigger Follows(states, steps, i)} :: 0 <= i < |steps| ==> Follows(states, steps, i)
    requires forall i :: 0 <= i < |states| ==> states[i].purging > 0
    ensures EntrySteps(steps) + Entries(states[|steps|]) == Entries(states[0])
  {
    if steps != [] {
      assert Follows(states, steps, 0);
      PurgeClosesTheDoor(states[0], steps[0].0, steps[0].1);
      StepKeepsInv(states[0], steps[0].0, steps[0].1);
      forall i | 0 <= i < |steps| - 1 ensures Follows(states[1..], steps[1..], i) {
        assert Follows(states, steps, i + 1);
      }
      PurgeWaitIsBounded(states[1..], steps[1..]);
    }
  }
}