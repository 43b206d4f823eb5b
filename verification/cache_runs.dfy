/**
  Runs of the frame cache as it is coded in which something goes wrong, all with room for
  one line: between finding a line and pinning it another thread re-keys or frees it, and
  the early return of getcl leaves a line under its old key.
  */
module CacheRuns {
  import opened Wrappers
  import opened FrameCache

  type Tid = FrameCache.Tid

  /** A run under way: its states and steps. */
  datatype Run = Run(states: seq<Cache>, steps: seq<(Tid, Action)>)
  {
    ghost predicate Valid()
    {
      IsRun(states, steps)
    }

    ghost function First(): Cache
      requires Valid()
    {
      states[0]
    }

    ghost function Last(): Cache
      requires Valid()
    {
      states[|steps|]
    }
  }

  function OneLine(x: Line, now: int, pcs: map<Tid, Pc>): Cache
  {
    Cache(map[0 := x], 1, now, pcs)
  }

  /** A line that shows p for k in a buffer of the given size, last used at `now`. */
  function Showing(k: Key, size: Key, p: Picture, holders: nat, now: int): Line
  {
    Line(k, false, holders > 0, true, false, holders, now, Some(Buffer(size.w, size.h, size.fmt, Some(p))))
  }

  lemma Start(s: Cache) returns (r: Run)
    requires Initial(s)
    ensures r.Valid() && r.First() == r.Last() == s && r.steps == []
  {
    r := Run([s], []);
  }

  lemma Extend(r: Run, t: Tid, a: Action, next: Cache) returns (r': Run)
    requires r.Valid() && Enabled(r.Last(), t, a) && Do(r.Last(), t, a) == next
    ensures r'.Valid() && r'.First() == r.First() && r'.Last() == next
    ensures r'.steps == r.steps + [(t, a)]
  {
    r' := Run(r.states + [next], r.steps + [(t, a)]);
  }

  // ---------------------------------------------------------------------------------
  // Pieces of runs

  /** A thread looks k up in vain and is given the line, or a new one, to decode into. */
  lemma MissOnEmpty(r: Run, t: Tid, k: Key) returns (r': Run)
    requires r.Valid() && r.Last().lines == map[] && r.Last().size == 1 && t in r.Last().pcs && r.Last().pcs[t].Idle?
    ensures r'.Valid() && r'.First() == r.First()
    ensures r'.Last() == OneLine(NewLineFor(k).(decoding := true), r.Last().now, r.Last().pcs[t := Fill(k, 0)])
    ensures r'.steps == r.steps + [(t, Lookup(k)), (t, Miss), (t, NewLine(0))]
  {
    var s := r.Last();
    r' := Extend(r, t, Lookup(k), s.(pcs := s.pcs[t := Find(k)]));
    r' := Extend(r', t, Miss, s.(pcs := s.pcs[t := Get(k)]));
    r' := Extend(r', t, NewLine(0), OneLine(NewLineFor(k).(decoding := true), s.now, s.pcs[t := Fill(k, 0)]));
  }

  lemma MissOnOther(r: Run, t: Tid, k: Key, x: Line, pcs: map<Tid, Pc>, now: int) returns (r': Run)
    requires r.Valid() && r.Last() == OneLine(x, now, pcs) && t in pcs && pcs[t].Idle? && x.key != k
    ensures r'.Valid() && r'.First() == r.First() && r'.Last() == OneLine(x, now, pcs[t := Get(k)])
    ensures r'.steps == r.steps + [(t, Lookup(k)), (t, Miss)]
  {
    r' := Extend(r, t, Lookup(k), OneLine(x, now, pcs[t := Find(k)]));
    r' := Extend(r', t, Miss, OneLine(x, now, pcs[t := Get(k)]));
  }

  /** dctrl_decode returns rv. */
  lemma Decode(r: Run, t: Tid, k: Key, x: Line, pcs: map<Tid, Pc>, now: int, rv: int, p: Picture) returns (r': Run)
    requires r.Valid() && r.Last() == OneLine(x, now, pcs) && t in pcs && pcs[t] == Fill(k, 0)
    ensures r'.Valid() && r'.First() == r.First()
    ensures r'.Last() == OneLine(Completed(Written(x, k, p), rv, now), now, pcs[t := if rv > 0 then Idle else Hold(k, 0, rv)])
    ensures r'.steps == r.steps + [(t, Write(rv, p)), (t, Complete)]
  {
    r' := Extend(r, t, Write(rv, p), OneLine(Written(x, k, p), now, pcs[t := Filled(k, 0, rv)]));
    r' := Extend(r', t, Complete, OneLine(Completed(Written(x, k, p), rv, now), now, pcs[t := if rv > 0 then Idle else Hold(k, 0, rv)]));
  }

  lemma LetGo(r: Run, t: Tid, k: Key, x: Line, pcs: map<Tid, Pc>, now: int, err: int) returns (r': Run)
    requires r.Valid() && r.Last() == OneLine(x, now, pcs) && t in pcs && pcs[t] == Hold(k, 0, err) && !x.release
    ensures r'.Valid() && r'.First() == r.First() && r'.Last() == OneLine(Released(x), now, pcs[t := Idle])
    ensures r'.steps == r.steps + [(t, Release)]
  {
    r' := Extend(r, t, Release, OneLine(Released(x), now, pcs[t := Idle]));
  }

  lemma FindLine(r: Run, t: Tid, k: Key, x: Line, pcs: map<Tid, Pc>, now: int) returns (r': Run)
    requires r.Valid() && r.Last() == OneLine(x, now, pcs) && t in pcs && pcs[t].Idle? && x.key == k
    ensures r'.Valid() && r'.First() == r.First() && r'.Last() == OneLine(x, now, pcs[t := Pin(k, 0)])
    ensures r'.steps == r.steps + [(t, Lookup(k)), (t, Hit(0))]
  {
    r' := Extend(r, t, Lookup(k), OneLine(x, now, pcs[t := Find(k)]));
    r' := Extend(r', t, Hit(0), OneLine(x, now, pcs[t := Pin(k, 0)]));
  }

  lemma PinFound(r: Run, t: Tid, k: Key, x: Line, pcs: map<Tid, Pc>, now: int) returns (r': Run)
    requires r.Valid() && r.Last() == OneLine(x, now, pcs) && t in pcs && pcs[t] == Pin(k, 0) && x.valid
    ensures r'.Valid() && r'.First() == r.First() && r'.Last() == OneLine(Pinned(x, now), now, pcs[t := Hold(k, 0, 0)])
    ensures r'.steps == r.steps + [(t, PinLine)]
  {
    r' := Extend(r, t, PinLine, OneLine(Pinned(x, now), now, pcs[t := Hold(k, 0, 0)]));
  }

  /** Another frame is decoded into the line, which shows k1 and is loose. */
  lemma TakeOver(r: Run, t: Tid, k1: Key, size: Key, k2: Key, p: Picture, q: Picture, pcs: map<Tid, Pc>, now: int) returns (r': Run)
    requires r.Valid() && r.Last() == OneLine(Showing(k1, size, p, 0, now), now, pcs) && t in pcs && pcs[t].Idle? && k1 != k2
    ensures r'.Valid() && r'.First() == r.First()
    ensures r'.Last() == OneLine(Showing(k2, if SameSize(k1, k2) then size else k2, q, 1, now), now, pcs[t := Hold(k2, 0, 0)])
    ensures r'.steps == r.steps + [(t, Lookup(k2)), (t, Miss), (t, ReuseLine(0)), (t, Write(0, q)), (t, Complete)]
  {
    var x := Showing(k1, size, p, 0, now);
    var y := Rekeyed(x, k2).(decoding := true);
    r' := MissOnOther(r, t, k2, x, pcs, now);
    r' := Extend(r', t, ReuseLine(0), OneLine(y, now, pcs[t := Fill(k2, 0)]));
    r' := Decode(r', t, k2, y, pcs[t := Fill(k2, 0)], now, 0, q);
    assert pcs[t := Fill(k2, 0)][t := Hold(k2, 0, 0)] == pcs[t := Hold(k2, 0, 0)];
  }

  // ---------------------------------------------------------------------------------
  // The early return

  /** A miss on k1 for which no decoder is free leaves the line without flags; k2 is then decoded into it. */
  lemma EarlyLineKeepsKey(s: Cache, t: Tid, k1: Key, k2: Key, junk: Picture, p: Picture) returns (r: Run)
    requires Initial(s) && s.size == 1 && t in s.pcs && k1 != k2
    ensures r.Valid() && r.First() == s
    ensures r.Last() == OneLine(Showing(k1, k2, p, 0, s.now), s.now, s.pcs[t := Idle])
    ensures r.steps == [(t, Lookup(k1)), (t, Miss), (t, NewLine(0)), (t, Write(503, junk)), (t, Complete),
                        (t, Lookup(k2)), (t, Miss), (t, EarlyLine(0)), (t, Write(0, p)), (t, Complete), (t, Release)]
  {
    var idle: map<Tid, Pc> := s.pcs[t := Idle];
    var x := Completed(Written(NewLineFor(k1).(decoding := true), k1, junk), 503, s.now);
    r := Start(s);
    r := MissOnEmpty(r, t, k1);
    r := Decode(r, t, k1, NewLineFor(k1).(decoding := true), s.pcs[t := Fill(k1, 0)], s.now, 503, junk);
    assert s.pcs[t := Fill(k1, 0)][t := Idle] == idle;
    r := MissOnOther(r, t, k2, x, idle, s.now);
    assert idle[t := Get(k2)][t := Fill(k2, 0)] == s.pcs[t := Fill(k2, 0)];
    r := Extend(r, t, EarlyLine(0), OneLine(x.(decoding := true), s.now, s.pcs[t := Fill(k2, 0)]));
    r := DecodeAndLetGo(r, t, k2, x.(decoding := true), s.pcs, s.now, p);
    assert Released(Completed(Written(x.(decoding := true), k2, p), 0, s.now)) == Showing(k1, k2, p, 0, s.now);
  }

  lemma DecodeAndLetGo(r: Run, t: Tid, k: Key, x: Line, pcs: map<Tid, Pc>, now: int, p: Picture) returns (r': Run)
    requires r.Valid() && r.Last() == OneLine(x, now, pcs[t := Fill(k, 0)]) && t in pcs && !x.release
    ensures r'.Valid() && r'.First() == r.First()
    ensures r'.Last() == OneLine(Released(Completed(Written(x, k, p), 0, now)), now, pcs[t := Idle])
    ensures r'.steps == r.steps + [(t, Write(0, p)), (t, Complete), (t, Release)]
  {
    r' := Decode(r, t, k, x, pcs[t := Fill(k, 0)], now, 0, p);
    assert pcs[t := Fill(k, 0)][t := Hold(k, 0, 0)] == pcs[t := Hold(k, 0, 0)];
    r' := LetGo(r', t, k, Completed(Written(x, k, p), 0, now), pcs[t := Hold(k, 0, 0)], now, 0);
    assert pcs[t := Hold(k, 0, 0)][t := Idle] == pcs[t := Idle];
  }

  /**
    Without re-keying, getcl hands the line of k1 to a request for k2; the picture decoded
    for k2 is then served to the next request for k1.
    */
  lemma EarlyLineServesWrongPicture(s: Cache, t: Tid, k1: Key, k2: Key, junk: Picture, p: Picture) returns (r: Run)
    requires Initial(s) && s.size == 1 && t in s.pcs && k1 != k2
    ensures r.Valid() && r.First() == s
    ensures r.Last() == OneLine(Showing(k1, k2, p, 1, s.now), s.now, s.pcs[t := Hold(k1, 0, 0)])
    ensures r.steps == [(t, Lookup(k1)), (t, Miss), (t, NewLine(0)), (t, Write(503, junk)), (t, Complete),
                        (t, Lookup(k2)), (t, Miss), (t, EarlyLine(0)), (t, Write(0, p)), (t, Complete), (t, Release),
                        (t, Lookup(k1)), (t, Hit(0)), (t, PinLine)]
  {
    var x := Showing(k1, k2, p, 0, s.now);
    r := EarlyLineKeepsKey(s, t, k1, k2, junk, p);
    r := FindLine(r, t, k1, x, s.pcs[t := Idle], s.now);
    r := PinFound(r, t, k1, x, s.pcs[t := Idle][t := Pin(k1, 0)], s.now);
    assert s.pcs[t := Idle][t := Pin(k1, 0)][t := Hold(k1, 0, 0)] == s.pcs[t := Hold(k1, 0, 0)];
  }

  /**
    If k2 takes another amount of space, the line is left with a buffer that its key does not
    tell the size of: a request for k3, of the size of k1, then decodes into the buffer
    allocated for k2.
    */
  lemma EarlyLineOutgrowsKey(s: Cache, t: Tid, k1: Key, k2: Key, k3: Key, junk: Picture, p: Picture, q: Picture) returns (r: Run)
    requires Initial(s) && s.size == 1 && t in s.pcs && k1 != k3
    requires !SameSize(k1, k2) && SameSize(k1, k3)
    ensures r.Valid() && r.First() == s
    ensures r.Last() == OneLine(Showing(k3, k2, q, 1, s.now), s.now, s.pcs[t := Hold(k3, 0, 0)])
    ensures r.steps == [(t, Lookup(k1)), (t, Miss), (t, NewLine(0)), (t, Write(503, junk)), (t, Complete),
                        (t, Lookup(k2)), (t, Miss), (t, EarlyLine(0)), (t, Write(0, p)), (t, Complete), (t, Release),
                        (t, Lookup(k3)), (t, Miss), (t, ReuseLine(0)), (t, Write(0, q)), (t, Complete)]
  {
    r := EarlyLineKeepsKey(s, t, k1, k2, junk, p);
    r := TakeOver(r, t, k1, k2, k3, p, q, s.pcs[t := Idle], s.now);
    assert s.pcs[t := Idle][t := Hold(k3, 0, 0)] == s.pcs[t := Hold(k3, 0, 0)];
  }

  // ---------------------------------------------------------------------------------
  // Found, but not yet pinned

  /** Thread t decodes k and lets go of the line; then thread u finds it. */
  lemma FoundByAnother(s: Cache, t: Tid, u: Tid, k: Key, p: Picture) returns (r: Run)
    requires Initial(s) && s.size == 1 && t in s.pcs && u in s.pcs && t != u
    ensures r.Valid() && r.First() == s
    ensures r.Last() == OneLine(Showing(k, k, p, 0, s.now), s.now, s.pcs[u := Pin(k, 0)])
    ensures r.steps == [(t, Lookup(k)), (t, Miss), (t, NewLine(0)), (t, Write(0, p)), (t, Complete), (t, Release),
                        (u, Lookup(k)), (u, Hit(0))]
  {
    r := Start(s);
    r := MissOnEmpty(r, t, k);
    r := DecodeAndLetGo(r, t, k, NewLineFor(k).(decoding := true), s.pcs, s.now, p);
    assert s.pcs[t := Idle] == s.pcs;
    r := FindLine(r, u, k, Showing(k, k, p, 0, s.now), s.pcs, s.now);
  }

  /** Before u pins it, t takes the line over for k2: u asked for k1 and holds the picture of k2. */
  lemma StalePinServesWrongPicture(s: Cache, t: Tid, u: Tid, k1: Key, k2: Key, p: Picture, q: Picture) returns (r: Run)
    requires Initial(s) && s.size == 1 && t in s.pcs && u in s.pcs && t != u && k1 != k2
    ensures r.Valid() && r.First() == s
    ensures r.Last() == OneLine(Showing(k2, k2, q, 2, s.now), s.now, s.pcs[u := Hold(k1, 0, 0)][t := Hold(k2, 0, 0)])
    ensures r.steps == [(t, Lookup(k1)), (t, Miss), (t, NewLine(0)), (t, Write(0, p)), (t, Complete), (t, Release),
                        (u, Lookup(k1)), (u, Hit(0)),
                        (t, Lookup(k2)), (t, Miss), (t, ReuseLine(0)), (t, Write(0, q)), (t, Complete),
                        (u, PinLine)]
  {
    var pcs: map<Tid, Pc> := s.pcs[u := Pin(k1, 0)];
    r := FoundByAnother(s, t, u, k1, p);
    r := TakeOver(r, t, k1, k1, k2, p, q, pcs, s.now);
    r := PinFound(r, u, k1, Showing(k2, k2, q, 1, s.now), pcs[t := Hold(k2, 0, 0)], s.now);
    assert pcs[t := Hold(k2, 0, 0)][u := Hold(k1, 0, 0)] == s.pcs[u := Hold(k1, 0, 0)][t := Hold(k2, 0, 0)];
  }

  /** Before u pins it, t clears the cache: the line is freed while u has its address. */
  lemma FoundLineIsCleared(s: Cache, t: Tid, u: Tid, k: Key, p: Picture) returns (r: Run)
    requires Initial(s) && s.size == 1 && t in s.pcs && u in s.pcs && t != u
    ensures r.Valid() && r.First() == s && r.Last() == Cache(map[], 1, s.now, s.pcs[u := Pin(k, 0)])
    ensures |r.steps| == 9 && r.steps[8] == (t, ClearAll(-1))
  {
    r := FoundByAnother(s, t, u, k, p);
    r := Extend(r, t, ClearAll(-1), Cache(map[], 1, s.now, s.pcs[u := Pin(k, 0)]));
  }

  /** Before u pins it, t, who holds the line, invalidates and releases it: it is freed as well. */
  lemma FoundLineIsReleased(s: Cache, t: Tid, u: Tid, k: Key, p: Picture) returns (r: Run)
    requires Initial(s) && s.size == 1 && t in s.pcs && u in s.pcs && t != u
    ensures r.Valid() && r.First() == s && r.Last() == Cache(map[], 1, s.now, s.pcs[u := Pin(k, 0)])
    ensures r.steps == [(t, Lookup(k)), (t, Miss), (t, NewLine(0)), (t, Write(0, p)), (t, Complete), (t, Release),
                        (u, Lookup(k)), (u, Hit(0)),
                        (t, Lookup(k)), (t, Hit(0)), (t, PinLine), (t, Invalidate), (t, Release)]
  {
    var pcs: map<Tid, Pc> := s.pcs[u := Pin(k, 0)];
    var x := Showing(k, k, p, 0, s.now);
    r := FoundByAnother(s, t, u, k, p);
    r := FindLine(r, t, k, x, pcs, s.now);
    r := PinFound(r, t, k, x, pcs[t := Pin(k, 0)], s.now);
    var held: map<Tid, Pc> := pcs[t := Pin(k, 0)][t := Hold(k, 0, 0)];
    r := Extend(r, t, Invalidate, OneLine(Pinned(x, s.now).(release := true), s.now, held));
    assert held[t := Idle] == pcs;
    r := Extend(r, t, Release, Cache(map[], 1, s.now, pcs));
  }
}
