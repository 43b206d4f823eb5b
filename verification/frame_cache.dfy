/**
  The raw frame cache of libharvid/frame_cache.c as a concurrent protocol.

  Threads look a frame up, pin it or get a line to decode into, hold it, and release it.
  Every region under the cache lock is one atomic step.  The clock never runs backwards.
  Pictures are whatever the decoder produces.
  */
module FrameCache {
  import opened Wrappers
  import opened Counting

  type Tid = nat
  type Lid = nat

  type Picture(==, !new)

  /** id + w + h + fmt + frame: the bytes that HASH_FIND compares. */
  datatype Key = Key(id: nat, w: int, h: int, fmt: int, frame: int)

  /** An allocated buffer: the geometry it was sized for and what was last written to it. */
  datatype Buffer = Buffer(w: int, h: int, fmt: int, content: Option<Picture>)

  datatype Line = Line(key: Key, decoding: bool, inuse: bool, valid: bool, release: bool,
                       refcnt: int, lru: int, buf: Option<Buffer>)

  datatype Pc =
    | Idle
    | Find(key: Key)                       // testclwh
    | Pin(key: Key, l: Lid)                // found it, lock given up
    | Get(key: Key)                        // getcl
    | Fill(key: Key, l: Lid)               // CLF_DECODING set, decoding into the line
    | Filled(key: Key, l: Lid, rv: int)    // dctrl_decode returned rv
    | Hold(key: Key, l: Lid, err: int)     // handed out

  datatype Cache = Cache(lines: map<Lid, Line>, size: nat, now: int, pcs: map<Tid, Pc>)

  datatype Action =
    | Lookup(key: Key)
    | Hit(l: Lid)
    | Miss
    | PinLine
    | NewLine(l: Lid)
    | EarlyLine(l: Lid)                    // getcl as coded returns a line without flags as it is
    | ReuseLine(l: Lid)                    // getcl re-keys a line without flags, or else the least recently used one
    | NoLine(giveUp: bool)
    | Write(rv: int, picture: Picture)
    | Complete
    | Release
    | Invalidate
    | ClearAll(id: int)                    // vcache_clear, and get_id for a new id
    | Tick

  // ---------------------------------------------------------------------------------
  // Regions under the cache lock

  predicate Unflagged(x: Line)
  {
    !x.decoding && !x.inuse && !x.valid && !x.release
  }

  /** Not CLF_DECODING and not CLF_INUSE: the line may be taken over or freed. */
  predicate Loose(x: Line)
  {
    !x.decoding && !x.inuse
  }

  /** Keys whose pictures take the same space. */
  predicate SameSize(a: Key, b: Key)
  {
    a.w == b.w && a.h == b.h && a.fmt == b.fmt
  }

  /** realloccl_buf and getcl go by the line's key to tell what its buffer was allocated for. */
  predicate Fits(x: Line, k: Key)
  {
    x.buf.Some? && SameSize(x.key, k)
  }

  function NewLineFor(k: Key): Line
  {
    Line(k, false, false, false, false, 0, 0, None)
  }

  /** getcl: the taken-over line keeps its buffer if the geometry of its old key matches. */
  function Rekeyed(x: Line, k: Key): Line
  {
    if Fits(x, k) then Line(k, false, false, false, false, x.refcnt, 0, x.buf)
    else NewLineFor(k)
  }

  /** realloccl_buf, then the decoder writes into the buffer. */
  function Written(x: Line, k: Key, picture: Picture): Line
  {
    if Fits(x, k) then x.(buf := Some(x.buf.value.(content := Some(picture))))
    else x.(buf := Some(Buffer(k.w, k.h, k.fmt, Some(picture))))
  }

  function Pinned(x: Line, now: int): Line
  {
    x.(refcnt := x.refcnt + 1, inuse := true, lru := now)
  }

  /** fc_readcl after dctrl_decode returned rv. */
  function Completed(x: Line, rv: int, now: int): Line
  {
    if rv == 0 then x.(valid := true, inuse := true, decoding := false, refcnt := x.refcnt + 1, lru := now)
    else if rv > 0 then x.(valid := false, decoding := false)
    else x.(valid := false, decoding := false, inuse := true, refcnt := x.refcnt + 1)
  }

  function Released(x: Line): Line
  {
    if x.refcnt - 1 < 1 then x.(refcnt := x.refcnt - 1, inuse := false) else x.(refcnt := x.refcnt - 1)
  }

  predicate FreedOnRelease(x: Line)
  {
    x.refcnt - 1 < 1 && x.release
  }

  /** clearcache with f == 0. */
  predicate ClearedAway(x: Line, id: int)
  {
    (id < 0 || x.key.id == id) && Loose(x)
  }

  // ---------------------------------------------------------------------------------
  // Steps

  predicate Oldest(s: Cache, l: Lid)
  {
    && l in s.lines && Loose(s.lines[l]) && s.lines[l].lru <= s.now
    && forall m :: m in s.lines && Loose(s.lines[m]) ==> s.lines[l].lru <= s.lines[m].lru
  }

  predicate Enabled(s: Cache, t: Tid, a: Action)
  {
    t in s.pcs &&
    var pc := s.pcs[t];
    match a
    case Lookup(_) => pc.Idle?
    case Hit(l) => pc.Find? && l in s.lines && s.lines[l].key == pc.key
    case Miss => pc.Find? && forall l :: l in s.lines ==> s.lines[l].key != pc.key
    case PinLine => pc.Pin? && pc.l in s.lines
    case NewLine(l) => pc.Get? && |s.lines| < s.size && l !in s.lines
    case EarlyLine(l) => pc.Get? && |s.lines| >= s.size && l in s.lines && Unflagged(s.lines[l])
    case ReuseLine(l) =>
      && pc.Get? && |s.lines| >= s.size && l in s.lines
      && (Unflagged(s.lines[l]) || (Oldest(s, l) && forall m :: m in s.lines ==> !Unflagged(s.lines[m])))
    case NoLine(_) =>
      && pc.Get? && |s.lines| >= s.size
      && forall m :: m in s.lines ==> !Unflagged(s.lines[m]) && !(Loose(s.lines[m]) && s.lines[m].lru <= s.now)
    case Write(_, _) => pc.Fill? && pc.l in s.lines
    case Complete => pc.Filled? && pc.l in s.lines
    case Release => pc.Hold? && pc.l in s.lines
    case Invalidate => pc.Hold? && pc.l in s.lines
    case ClearAll(_) => pc.Idle?
    case Tick => true
  }

  datatype Change = Keep | Set(l: Lid, x: Line) | Free(l: Lid) | Sweep(id: int)

  datatype Effect = Effect(pc: Pc, change: Change)

  function EffectOf(s: Cache, t: Tid, a: Action): Effect
    requires Enabled(s, t, a)
  {
    var pc := s.pcs[t];
    match a
    case Lookup(key) => Effect(Find(key), Keep)
    case Hit(l) => Effect(Pin(pc.key, l), Keep)
    case Miss => Effect(Get(pc.key), Keep)
    case PinLine =>
      if s.lines[pc.l].valid then Effect(Hold(pc.key, pc.l, 0), Set(pc.l, Pinned(s.lines[pc.l], s.now)))
      else Effect(Get(pc.key), Keep)
    case NewLine(l) => Effect(Fill(pc.key, l), Set(l, NewLineFor(pc.key).(decoding := true)))
    case EarlyLine(l) => Effect(Fill(pc.key, l), Set(l, s.lines[l].(decoding := true)))
    case ReuseLine(l) => Effect(Fill(pc.key, l), Set(l, Rekeyed(s.lines[l], pc.key).(decoding := true)))
    case NoLine(giveUp) => Effect(if giveUp then Idle else pc, Keep)
    case Write(rv, picture) => Effect(Filled(pc.key, pc.l, rv), Set(pc.l, Written(s.lines[pc.l], pc.key, picture)))
    case Complete =>
      Effect(if pc.rv > 0 then Idle else Hold(pc.key, pc.l, pc.rv), Set(pc.l, Completed(s.lines[pc.l], pc.rv, s.now)))
    case Release =>
      Effect(Idle, if FreedOnRelease(s.lines[pc.l]) then Free(pc.l) else Set(pc.l, Released(s.lines[pc.l])))
    case Invalidate => Effect(pc, Set(pc.l, s.lines[pc.l].(release := true)))
    case ClearAll(id) => Effect(pc, Sweep(id))
    case Tick => Effect(pc, Keep)
  }

  function LinesAfter(s: Cache, c: Change): map<Lid, Line>
  {
    match c
    case Keep => s.lines
    case Set(l, x) => s.lines[l := x]
    case Free(l) => s.lines - {l}
    case Sweep(id) => map l | l in s.lines && !ClearedAway(s.lines[l], id) :: s.lines[l]
  }

  function Do(s: Cache, t: Tid, a: Action): Cache
    requires Enabled(s, t, a)
  {
    var e := EffectOf(s, t, a);
    Cache(LinesAfter(s, e.change), s.size, if a.Tick? then s.now + 1 else s.now, s.pcs[t := e.pc])
  }

  // ---------------------------------------------------------------------------------
  // Counting threads

  datatype Role = HolderOf(l: Lid) | FillerOf(l: Lid)

  predicate Plays(pc: Pc, role: Role)
  {
    match role
    case HolderOf(l) => pc.Hold? && pc.l == l
    case FillerOf(l) => (pc.Fill? || pc.Filled?) && pc.l == l
  }

  ghost function Players(pcs: map<Tid, Pc>, role: Role): set<Tid>
  {
    set t | t in pcs && Plays(pcs[t], role)
  }

  ghost function Count(pcs: map<Tid, Pc>, role: Role): nat
  {
    |Players(pcs, role)|
  }

  lemma CountStep(pcs: map<Tid, Pc>, t: Tid, pc: Pc, role: Role)
    requires t in pcs
    ensures Count(pcs[t := pc], role) == Count(pcs, role) - One(Plays(pcs[t], role)) + One(Plays(pc, role))
    ensures Count(pcs, role) >= One(Plays(pcs[t], role))
  {
    OneMoves(Players(pcs, role), Players(pcs[t := pc], role), t);
  }

  lemma CountPair(pcs: map<Tid, Pc>, t: Tid, u: Tid, role: Role)
    requires t in pcs && u in pcs && t != u
    ensures Count(pcs, role) >= One(Plays(pcs[t], role)) + One(Plays(pcs[u], role))
  {
    TwoMembers(Players(pcs, role), t, u);
  }

  // ---------------------------------------------------------------------------------
  // The invariant

  /** The flags of a line agree with the numbers of its holders and fillers. */
  predicate Consistent(x: Line, holders: int, fillers: int, now: int)
  {
    && x.refcnt == holders >= 0
    && (x.inuse <==> x.refcnt > 0)
    && fillers == One(x.decoding)
    && (x.decoding ==> !x.valid && !x.inuse && !x.release)
    && (x.release ==> x.inuse)
    && x.lru <= now
  }

  ghost predicate LineOk(s: Cache, l: Lid, x: Line)
  {
    Consistent(x, Count(s.pcs, HolderOf(l)), Count(s.pcs, FillerOf(l)), s.now)
  }

  predicate Points(pc: Pc)
  {
    pc.Fill? || pc.Filled? || pc.Hold?
  }

  ghost predicate ThreadOk(s: Cache, pc: Pc)
  {
    Points(pc) ==> pc.l in s.lines
  }

  ghost predicate Inv(s: Cache)
  {
    && s.now >= 0
    && |s.lines| <= s.size
    && (forall l {:trigger LineOk(s, l, s.lines[l])} :: l in s.lines ==> LineOk(s, l, s.lines[l]))
    && (forall t {:trigger ThreadOk(s, s.pcs[t])} :: t in s.pcs ==> ThreadOk(s, s.pcs[t]))
  }

  ghost predicate Initial(s: Cache)
  {
    s.lines == map[] && s.now >= 0 && forall t :: t in s.pcs ==> s.pcs[t].Idle?
  }

  lemma InitialInv(s: Cache)
    requires Initial(s)
    ensures Inv(s)
  {
  }

  lemma NoPointerNoCount(s: Cache, l: Lid)
    requires Inv(s) && l !in s.lines
    ensures Count(s.pcs, HolderOf(l)) == Count(s.pcs, FillerOf(l)) == 0
  {
    forall role | role in {HolderOf(l), FillerOf(l)} ensures Players(s.pcs, role) == {} {
      forall t | t in s.pcs ensures !Plays(s.pcs[t], role) {
        assert ThreadOk(s, s.pcs[t]);
      }
    }
  }

  function Delta(pc: Pc, pc': Pc, role: Role): int
  {
    One(Plays(pc', role)) - One(Plays(pc, role))
  }

  /** What a line looks like to a step: one that is not in the cache yet counts as blank. */
  function Before(s: Cache, l: Lid): Line
  {
    if l in s.lines then s.lines[l] else NewLineFor(Key(0, 0, 0, 0, 0))
  }

  lemma ChangedLine(s: Cache, t: Tid, a: Action, holders: int, fillers: int)
    requires Enabled(s, t, a) && EffectOf(s, t, a).change.Set? && s.now >= 0
    requires var l, pc := EffectOf(s, t, a).change.l, s.pcs[t];
      && Consistent(Before(s, l), holders, fillers, s.now)
      && holders >= One(Plays(pc, HolderOf(l))) && fillers >= One(Plays(pc, FillerOf(l)))
    ensures var e, pc := EffectOf(s, t, a), s.pcs[t]; var l := e.change.l;
      Consistent(e.change.x, holders + Delta(pc, e.pc, HolderOf(l)), fillers + Delta(pc, e.pc, FillerOf(l)), s.now)
  {
  }

  lemma OtherLines(s: Cache, t: Tid, a: Action, l: Lid)
    requires Enabled(s, t, a)
    requires var c := EffectOf(s, t, a).change; (c.Set? || c.Free?) ==> c.l != l
    ensures var e, pc := EffectOf(s, t, a), s.pcs[t];
      Delta(pc, e.pc, HolderOf(l)) == Delta(pc, e.pc, FillerOf(l)) == 0
  {
  }

  lemma LineStep(s: Cache, t: Tid, a: Action, l: Lid)
    requires Inv(s) && Enabled(s, t, a) && l in Do(s, t, a).lines
    ensures LineOk(Do(s, t, a), l, Do(s, t, a).lines[l])
  {
    var e, pc := EffectOf(s, t, a), s.pcs[t];
    CountStep(s.pcs, t, e.pc, HolderOf(l));
    CountStep(s.pcs, t, e.pc, FillerOf(l));
    if l in s.lines {
      assert LineOk(s, l, s.lines[l]);
    } else {
      NoPointerNoCount(s, l);
    }
    if e.change.Set? && e.change.l == l {
      ChangedLine(s, t, a, Count(s.pcs, HolderOf(l)), Count(s.pcs, FillerOf(l)));
    } else {
      OtherLines(s, t, a, l);
    }
  }

  /** A line that is pinned or being decoded into is not freed by anybody else. */
  lemma PointedLineStays(s: Cache, t: Tid, a: Action, u: Tid)
    requires Inv(s) && Enabled(s, t, a) && u in s.pcs && u != t && Points(s.pcs[u])
    ensures s.pcs[u].l in s.lines && s.pcs[u].l in Do(s, t, a).lines
  {
    var e, l := EffectOf(s, t, a), s.pcs[u].l;
    assert ThreadOk(s, s.pcs[u]);
    assert LineOk(s, l, s.lines[l]);
    CountPair(s.pcs, t, u, HolderOf(l));
    CountPair(s.pcs, t, u, FillerOf(l));
  }

  lemma SizeStep(s: Cache, t: Tid, a: Action)
    requires Inv(s) && Enabled(s, t, a)
    ensures |Do(s, t, a).lines| <= s.size
  {
    var e := EffectOf(s, t, a);
    var lines' := LinesAfter(s, e.change);
    match e.change
    case Keep =>
    case Set(l, x) => assert lines'.Keys == s.lines.Keys + {l};
    case Free(l) => assert lines'.Keys == s.lines.Keys - {l};
    case Sweep(id) => SubsetIsSmaller(lines'.Keys, s.lines.Keys);
  }

  lemma SubsetIsSmaller(a: set<Lid>, b: set<Lid>)
    requires a <= b
    ensures |a| <= |b|
  {
    assert |b - a| == |b| - |a|;
  }

  lemma StepKeepsInv(s: Cache, t: Tid, a: Action)
    requires Inv(s) && Enabled(s, t, a)
    ensures Inv(Do(s, t, a))
  {
    var s' := Do(s, t, a);
    SizeStep(s, t, a);
    forall l | l in s'.lines ensures LineOk(s', l, s'.lines[l]) {
      LineStep(s, t, a, l);
    }
    forall u | u in s'.pcs ensures ThreadOk(s', s'.pcs[u]) {
      if u != t && Points(s.pcs[u]) {
        PointedLineStays(s, t, a, u);
      } else {
        assert ThreadOk(s, s.pcs[t]);
      }
    }
  }

  // ---------------------------------------------------------------------------------
  // What holds in every run

  ghost predicate IsRun(states: seq<Cache>, steps: seq<(Tid, Action)>)
  {
    && |states| == |steps| + 1
    && Initial(states[0])
    && forall i :: 0 <= i < |steps| ==>
         Enabled(states[i], steps[i].0, steps[i].1) && states[i + 1] == Do(states[i], steps[i].0, steps[i].1)
  }

  lemma {:induction false} RunKeepsInv(states: seq<Cache>, steps: seq<(Tid, Action)>, i: nat)
    requires IsRun(states, steps) && i < |states|
    ensures Inv(states[i])
  {
    if i == 0 {
      InitialInv(states[0]);
    } else {
      RunKeepsInv(states, steps, i - 1);
      StepKeepsInv(states[i - 1], steps[i - 1].0, steps[i - 1].1);
    }
  }

  /** What a holder or filler of a line may rely on between two of its own steps. */
  predicate SafeFor(pc: Pc, x: Line, x': Line)
  {
    && x'.key == x.key && x'.buf == x.buf && x'.valid == x.valid
    && (pc.Hold? ==> x'.inuse && !x'.decoding)
    && (!pc.Hold? ==> x'.decoding && !x'.inuse)
  }

  lemma ChangeIsSafe(s: Cache, t: Tid, a: Action, pc: Pc, holders: int, fillers: int)
    requires Enabled(s, t, a) && EffectOf(s, t, a).change.Set? && Points(pc)
    requires var l := EffectOf(s, t, a).change.l;
      && pc.l == l && l in s.lines && Consistent(s.lines[l], holders, fillers, s.now)
      && holders >= One(Plays(s.pcs[t], HolderOf(l))) + One(Plays(pc, HolderOf(l)))
      && fillers >= One(Plays(s.pcs[t], FillerOf(l))) + One(Plays(pc, FillerOf(l)))
    ensures var c := EffectOf(s, t, a).change; SafeFor(pc, s.lines[c.l], c.x)
  {
  }

  /** A pinned or decoding line is neither freed, re-keyed, rewritten nor re-allocated by others. */
  lemma PointedLineIsSafe(s: Cache, t: Tid, a: Action, u: Tid)
    requires Inv(s) && Enabled(s, t, a) && u in s.pcs && u != t && Points(s.pcs[u])
    ensures var l := s.pcs[u].l;
      l in s.lines && l in Do(s, t, a).lines && SafeFor(s.pcs[u], s.lines[l], Do(s, t, a).lines[l])
  {
    var e, l := EffectOf(s, t, a), s.pcs[u].l;
    PointedLineStays(s, t, a, u);
    assert LineOk(s, l, s.lines[l]);
    CountPair(s.pcs, t, u, HolderOf(l));
    CountPair(s.pcs, t, u, FillerOf(l));
    if e.change.Set? && e.change.l == l {
      ChangeIsSafe(s, t, a, s.pcs[u], Count(s.pcs, HolderOf(l)), Count(s.pcs, FillerOf(l)));
    }
  }

  /** The assertions in the source never fire (lines 84, 149, 321 and 326). */
  lemma AssertionsHold(s: Cache, t: Tid, a: Action)
    requires Inv(s) && Enabled(s, t, a)
    ensures a.ReuseLine? ==> s.lines[a.l].refcnt == 0
    ensures a.ClearAll? ==> forall l :: l in s.lines && ClearedAway(s.lines[l], a.id) ==> s.lines[l].refcnt == 0
    ensures a.Release? ==> s.lines[s.pcs[t].l].refcnt >= 1
    ensures a.Release? && FreedOnRelease(s.lines[s.pcs[t].l]) ==> Released(s.lines[s.pcs[t].l]).refcnt == 0
  {
    forall l | l in s.lines && Loose(s.lines[l]) ensures s.lines[l].refcnt == 0 {
      assert LineOk(s, l, s.lines[l]);
    }
    if a.Release? {
      var l := s.pcs[t].l;
      assert LineOk(s, l, s.lines[l]);
      CountStep(s.pcs, t, Idle, HolderOf(l));
    }
  }

  /** getcl comes back without a line exactly when every line of a full cache is pinned or being decoded. */
  lemma NoLineMeansAllBusy(s: Cache, t: Tid, giveUp: bool)
    requires Inv(s) && t in s.pcs && s.pcs[t].Get?
    ensures Enabled(s, t, NoLine(giveUp)) <==>
      |s.lines| >= s.size && forall l :: l in s.lines ==> s.lines[l].inuse || s.lines[l].decoding
  {
    forall l | l in s.lines && Loose(s.lines[l]) ensures s.lines[l].lru <= s.now {
      assert LineOk(s, l, s.lines[l]);
    }
  }

  /**
    fc_readcl gives up the lock between finding a line and pinning it.  A step of another
    thread in between takes the line away exactly if it clears the cache while the line is
    loose, or is the last release of a line that was invalidated.  There is no PinLine step
    then: the source would look at freed memory.
    */
  lemma FoundLineLeavesIff(s: Cache, t: Tid, u: Tid, a: Action)
    requires Inv(s) && t in s.pcs && u != t && s.pcs[t].Pin? && s.pcs[t].l in s.lines && Enabled(s, u, a)
    ensures var l, s' := s.pcs[t].l, Do(s, u, a);
      && s'.pcs[t] == s.pcs[t]
      && (l !in s'.lines <==>
            || (a.ClearAll? && ClearedAway(s.lines[l], a.id))
            || (a.Release? && s.pcs[u].l == l && FreedOnRelease(s.lines[l])))
      && (Enabled(s', t, PinLine) <==> l in s'.lines)
  {
  }
}
