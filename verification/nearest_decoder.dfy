/**
  Which of several open decoders testjvd (libharvid/decoder_ctrl.c) picks to decode a frame.
  It means to prefer the one that was last at a nearby lower frame.  Here is exactly when it does.
  */
module NearestDecoder {
  import opened Wrappers
  import opened DecoderObject

  /** dec_open, lru_open and framediff */
  datatype Best = Best(at: Option<nat>, lru: int, diff: int)

  /** The scan over the open decoders that will do, in the order of the list. */
  function BestOf(cs: seq<Jvo>, frame: int, now: int): (b: Best)
    ensures b.at.Some? ==> b.at.value < |cs|
  {
    if cs == [] then Best(None, now + 1, -1)
    else
      var n := |cs| - 1;
      Next(BestOf(cs[..n], frame, now), n, cs[n], frame)
  }

  /** One more open decoder, at position n. */
  function Next(b: Best, n: nat, c: Jvo, frame: int): (r: Best)
    ensures r.at == b.at || r.at == Some(n)
  {
    var fd := frame - c.frame;
    if b.diff < 0 || (fd >= 0 && fd == b.diff) then
      if c.lru < b.lru then Best(Some(n), c.lru, if fd > 0 then fd else b.diff) else b
    else if 0 <= fd < b.diff then Best(Some(n), c.lru, fd)
    else b
  }

  lemma BestOne(cs: seq<Jvo>, c: Jvo, frame: int, now: int)
    ensures BestOf(cs + [c], frame, now) == Next(BestOf(cs, frame, now), |cs|, c, frame)
  {
    assert (cs + [c])[..|cs|] == cs;
  }

  /** If any decoder is not ahead of the frame, the one at position r is, and none of the others is nearer. */
  predicate Nearest(cs: seq<Jvo>, frame: int, r: nat)
    requires r < |cs|
  {
    forall i :: 0 <= i < |cs| && cs[i].frame <= frame ==> cs[i].frame <= cs[r].frame <= frame
  }

  /** The first of the least recently used. */
  function LruFirst(cs: seq<Jvo>): (r: nat)
    requires cs != []
    ensures r < |cs| && (forall i :: 0 <= i < |cs| ==> cs[r].lru <= cs[i].lru) && forall i :: 0 <= i < r ==> cs[r].lru < cs[i].lru
  {
    var n := |cs| - 1;
    if n == 0 then 0
    else
      var p := LruFirst(cs[..n]);
      if cs[n].lru < cs[p].lru then n else p
  }

  /** From here on the scan goes by distance: the first decoder behind the frame that is less recently used than all before it. */
  predicate IsSwitch(cs: seq<Jvo>, frame: int, i: nat)
    requires i < |cs|
  {
    cs[i].frame < frame && forall j :: 0 <= j < i ==> cs[i].lru < cs[j].lru
  }

  function Switch(cs: seq<Jvo>, frame: int): (m: Option<nat>)
    ensures m.Some? ==> m.value < |cs| && IsSwitch(cs, frame, m.value) && forall i :: 0 <= i < m.value ==> !IsSwitch(cs, frame, i)
    ensures m.None? ==> forall i :: 0 <= i < |cs| ==> !IsSwitch(cs, frame, i)
  {
    SwitchFrom(cs, frame, 0)
  }

  function SwitchFrom(cs: seq<Jvo>, frame: int, k: nat): (m: Option<nat>)
    requires k <= |cs| && forall i :: 0 <= i < k ==> !IsSwitch(cs, frame, i)
    ensures m.Some? ==> m.value < |cs| && IsSwitch(cs, frame, m.value) && forall i :: 0 <= i < m.value ==> !IsSwitch(cs, frame, i)
    ensures m.None? ==> forall i :: 0 <= i < |cs| ==> !IsSwitch(cs, frame, i)
    decreases |cs| - k
  {
    if k == |cs| then None
    else if IsSwitch(cs, frame, k) then Some(k)
    else SwitchFrom(cs, frame, k + 1)
  }

  /**
    Every decoder that is not ahead of the frame is made up for: by one no farther from the
    switch on, or, if there is no switch, by the least recently used being right at the frame.
    */
  predicate Favourable(cs: seq<Jvo>, frame: int)
  {
    var m := Switch(cs, frame);
    forall i :: 0 <= i < |cs| && cs[i].frame <= frame ==>
      if m.None? then cs[LruFirst(cs)].frame == frame
      else exists j :: m.value <= j < |cs| && cs[i].frame <= cs[j].frame <= frame
  }

  /** Before the switch the scan goes by age alone. */
  lemma {:induction false} ByAge(cs: seq<Jvo>, frame: int, now: int, n: nat)
    requires 0 < n <= |cs| && (forall i :: 0 <= i < |cs| ==> cs[i].lru <= now)
    requires forall i :: 0 <= i < n ==> !IsSwitch(cs, frame, i)
    ensures var b := BestOf(cs[..n], frame, now);
      b.at == Some(LruFirst(cs[..n])) && b.lru == cs[LruFirst(cs[..n])].lru && b.diff == -1
  {
    assert cs[..n][..n - 1] == cs[..n - 1];
    assert !IsSwitch(cs, frame, n - 1);
    if n > 1 {
      ByAge(cs, frame, now, n - 1);
    }
  }

  /** From the switch on it keeps the nearest that is not ahead. */
  lemma {:induction false} ByDistance(cs: seq<Jvo>, frame: int, now: int, m: nat, n: nat)
    requires m < n <= |cs| && (forall i :: 0 <= i < |cs| ==> cs[i].lru <= now)
    requires IsSwitch(cs, frame, m) && forall i :: 0 <= i < m ==> !IsSwitch(cs, frame, i)
    ensures var b := BestOf(cs[..n], frame, now);
      && b.at.Some? && m <= b.at.value && b.diff == frame - cs[b.at.value].frame >= 0
      && forall i :: m <= i < n && cs[i].frame <= frame ==> cs[i].frame <= cs[b.at.value].frame
  {
    assert cs[..n][..n - 1] == cs[..n - 1];
    if m < n - 1 {
      ByDistance(cs, frame, now, m, n - 1);
    } else if m > 0 {
      ByAge(cs, frame, now, m);
      assert cs[..m][LruFirst(cs[..m])] == cs[LruFirst(cs[..m])];
    }
  }

  /** testjvd keeps its word exactly in favourable lists. */
  lemma NearestIff(cs: seq<Jvo>, frame: int, now: int)
    requires cs != [] && forall i :: 0 <= i < |cs| ==> cs[i].lru <= now
    ensures var b := BestOf(cs, frame, now);
      b.at.Some? && (Nearest(cs, frame, b.at.value) <==> Favourable(cs, frame))
  {
    assert cs[..|cs|] == cs;
    if Switch(cs, frame).None? {
      ByAge(cs, frame, now, |cs|);
      NearestByAge(cs, frame);
    } else {
      ByDistance(cs, frame, now, Switch(cs, frame).value, |cs|);
      NearestByDistance(cs, frame, BestOf(cs, frame, now).at.value);
    }
  }

  lemma NearestByAge(cs: seq<Jvo>, frame: int)
    requires cs != [] && Switch(cs, frame).None?
    ensures Nearest(cs, frame, LruFirst(cs)) <==> Favourable(cs, frame)
  {
    assert !IsSwitch(cs, frame, LruFirst(cs));
  }

  lemma NearestByDistance(cs: seq<Jvo>, frame: int, r: nat)
    requires Switch(cs, frame).Some? && Switch(cs, frame).value <= r < |cs| && cs[r].frame <= frame
    requires forall i :: Switch(cs, frame).value <= i < |cs| && cs[i].frame <= frame ==> cs[i].frame <= cs[r].frame
    ensures Nearest(cs, frame, r) <==> Favourable(cs, frame)
  {
  }

  /** If the frame lies ahead of all of them, the scan takes the closest, and the least recently used of those. */
  lemma {:induction false} AllBehind(cs: seq<Jvo>, frame: int, now: int)
    requires cs != [] && forall i :: 0 <= i < |cs| ==> cs[i].frame < frame && cs[i].lru <= now
    ensures var b := BestOf(cs, frame, now);
      && b.at.Some? && b.lru == cs[b.at.value].lru && b.diff == frame - cs[b.at.value].frame
      && forall i :: 0 <= i < |cs| ==>
           cs[i].frame <= cs[b.at.value].frame && (cs[i].frame == cs[b.at.value].frame ==> cs[b.at.value].lru <= cs[i].lru)
  {
    var n := |cs| - 1;
    if n > 0 {
      AllBehind(cs[..n], frame, now);
    }
  }
}
