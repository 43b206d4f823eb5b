/**
  Frame-accurate seeking (my_seek_frame of libharvid/ffdecoder.c) on a finite stream.

  A movie is the sequence of packets that av_read_frame delivers, together with what the
  decoder makes of each video packet.  av_seek_frame is any function from timestamps to
  packet positions; only the claims about constant frame rates ask more of it.  A picture is
  intact if it is a keyframe, or if the frame before it was decoded intact just before.
  */
module Seek {
  import opened Wrappers

  /** What the decoder does with a video packet: a frame, with or without pts; nothing; an error. */
  datatype Outcome = Frame(pts: Option<int>) | Nothing | Broken

  datatype Packet = Packet(stream: int, key: bool, outcome: Outcome) | ReadError

  /** `num`/`den`: ticks of the stream's time base per frame */
  datatype Movie = Movie(packets: seq<Packet>, videoStream: int, num: nat, den: nat, frames: int,
                         seekTo: int -> Option<nat>)

  /** The frame in pFrame: which packet it came from, and whether it is intact. */
  datatype Shot = Shot(at: nat, intact: bool)

  /** Read position, avprev, pFrame, and the frame that the decoder has references for. */
  datatype State = State(pos: nat, avprev: int, shown: Option<Shot>, refs: Option<nat>)

  predicate IsVideo(m: Movie, p: nat)
  {
    p < |m.packets| && m.packets[p].Packet? && m.packets[p].stream == m.videoStream
  }

  /** The number of video packets before position p. */
  function Index(m: Movie, p: nat): nat
  {
    if p == 0 then 0 else Index(m, p - 1) + if IsVideo(m, p - 1) then 1 else 0
  }

  /** av_rescale_q of a frame number: rounded to the nearest tick */
  function Timestamp(m: Movie, k: nat): nat
    requires m.den > 0
  {
    (k * m.num + m.den / 2) / m.den
  }

  /** ts is the tick nearest to k * num / den, and the later one if there are two. */
  predicate IsTick(num: nat, den: nat, k: nat, ts: int)
  {
    den * (2 * ts - 1) <= 2 * (k * num) < den * (2 * ts + 1)
  }

  lemma TimestampIsTick(m: Movie, k: nat)
    requires m.den > 0
    ensures IsTick(m.num, m.den, k, Timestamp(m, k))
  {
    Nearest(k * m.num, m.den, Timestamp(m, k));
  }

  lemma Nearest(x: nat, d: nat, q: nat)
    requires d > 0 && q == (x + d / 2) / d
    ensures d * (2 * q - 1) <= 2 * x < d * (2 * q + 1)
  {
    var r := (x + d / 2) % d;
    assert x + d / 2 == q * d + r && 0 <= r < d;
    assert d * (2 * q - 1) == 2 * (q * d) - d && d * (2 * q + 1) == 2 * (q * d) + d;
  }

  /** There is only one such tick. */
  lemma OneTick(num: nat, den: nat, k: nat, a: int, b: int)
    requires den > 0 && IsTick(num, den, k, a) && IsTick(num, den, k, b)
    ensures a == b
  {
    Between(den, a, b);
    Between(den, b, a);
  }

  lemma Between(den: nat, a: int, b: int)
    requires den > 0 && den * (2 * a - 1) < den * (2 * b + 1)
    ensures a <= b
  {
    MulCancel(2 * a - 1, 2 * b + 1, den);
  }

  lemma TickIsTimestamp(m: Movie, k: nat, ts: int)
    requires m.den > 0 && IsTick(m.num, m.den, k, ts)
    ensures ts == Timestamp(m, k)
  {
    TimestampIsTick(m, k);
    OneTick(m.num, m.den, k, ts, Timestamp(m, k));
  }

  function Tpf(m: Movie): nat
    requires m.den > 0
  {
    Timestamp(m, 1)
  }

  function Prefuzz(m: Movie): nat
    requires m.den > 0
  {
    if Tpf(m) > 10 then 1 else 0
  }

  function Flushed(s: State): State
  {
    s.(refs := None)
  }

  /** The decoder after it got the video packet at the read position. */
  function Decoded(m: Movie, s: State): State
    requires IsVideo(m, s.pos)
  {
    var intact := m.packets[s.pos].key || s.refs == Some(Index(m, s.pos));
    match m.packets[s.pos].outcome
    case Frame(_) =>
      s.(pos := s.pos + 1, shown := Some(Shot(s.pos, intact)), refs := if intact then Some(Index(m, s.pos) + 1) else None)
    case _ => s.(pos := s.pos + 1, refs := None)
  }

  function Max0(x: int): nat
  {
    if x < 0 then 0 else x
  }

  /** Reading and decoding until the frame turns up. */
  function Scan(m: Movie, s: State, ts: nat, bailout: int, again: bool): (int, State)
    requires m.den > 0
    decreases Max0(bailout), |m.packets| - s.pos
  {
    if bailout <= 0 then (-5, s)
    else if s.pos >= |m.packets| then
      // the empty packet counts as one of stream 0
      Scan(m, s, ts, if m.videoStream == 0 then bailout - 2 else bailout - 1, again)
    else if m.packets[s.pos].ReadError? then (-1, s.(pos := s.pos + 1))
    else if m.packets[s.pos].stream != m.videoStream then Scan(m, s.(pos := s.pos + 1), ts, bailout, again)
    else
      var t := Decoded(m, s);
      match m.packets[s.pos].outcome
      case Broken => (-10, t)
      case Nothing => Scan(m, t, ts, bailout - 1, again)
      case Frame(None) => (-7, t)
      case Frame(Some(pts)) =>
        if pts + Prefuzz(m) < ts then Scan(m, t, ts, bailout - 1, true)
        else if pts - ts < Tpf(m) then (0, t.(avprev := pts))
        else if again then (-2, t)
        else
          match m.seekTo(Max0(ts - Tpf(m) * 25))
          case None => (-3, Flushed(t))
          case Some(p) => Scan(m, Flushed(t).(pos := p), ts, bailout - 1, true)
  }

  /** my_seek_frame: the return code and the new state. */
  function SeekFrame(m: Movie, s: State, k: int): (int, State)
    requires m.den > 0
  {
    if m.videoStream < 0 then (0, s)
    else if k < 0 || k >= m.frames then (-1, s)
    else
      var ts := Timestamp(m, k);
      if s.avprev == ts then (0, s)
      else if s.avprev < 0 || s.avprev >= ts || s.avprev + 32 * Tpf(m) < ts then
        match m.seekTo(ts)
        case None => (-1, Flushed(s).(avprev := -1))
        case Some(p) => Scan(m, Flushed(s).(avprev := -1, pos := p), ts, 600, false)
      else Scan(m, s.(avprev := -1), ts, 600, false)
  }

  // ---------------------------------------------------------------------------------
  // Any stream

  /** avprev, if set, is the pts of the frame shown. */
  predicate Truthful(m: Movie, s: State)
  {
    s.avprev != -1 ==> ShowsPts(m, s, s.avprev)
  }

  predicate ShowsPts(m: Movie, s: State, pts: int)
  {
    s.shown.Some? && IsVideo(m, s.shown.value.at) && m.packets[s.shown.value.at].outcome == Frame(Some(pts))
  }

  lemma {:induction false} ScanResult(m: Movie, s: State, ts: nat, bailout: int, again: bool)
    requires m.den > 0 && s.avprev == -1
    ensures var (rv, t) := Scan(m, s, ts, bailout, again);
      if rv == 0 then ts - Prefuzz(m) <= t.avprev < ts + Tpf(m) && ShowsPts(m, t, t.avprev)
      else t.avprev == -1
    decreases Max0(bailout), |m.packets| - s.pos
  {
    if bailout > 0 {
      if s.pos >= |m.packets| {
        ScanResult(m, s, ts, if m.videoStream == 0 then bailout - 2 else bailout - 1, again);
      } else if m.packets[s.pos].Packet? {
        if m.packets[s.pos].stream != m.videoStream {
          ScanResult(m, s.(pos := s.pos + 1), ts, bailout, again);
        } else {
          var t := Decoded(m, s);
          ScanResult(m, t, ts, bailout - 1, again);
          ScanResult(m, t, ts, bailout - 1, true);
          var p := m.seekTo(Max0(ts - Tpf(m) * 25));
          if p.Some? {
            ScanResult(m, Flushed(t).(pos := p.value), ts, bailout - 1, true);
          }
        }
      }
    }
  }

  /**
    On any stream: success means that the frame shown lies in the window around the timestamp and
    that avprev is its pts; every failure leaves avprev at -1, except that a frame outside the
    movie leaves everything as it is.
    */
  lemma SeekResult(m: Movie, s: State, k: int)
    requires m.den > 0 && m.videoStream >= 0 && Truthful(m, s)
    ensures var (rv, t) := SeekFrame(m, s, k);
      && Truthful(m, t)
      && (rv == 0 ==>
            && 0 <= k < m.frames && ShowsPts(m, t, t.avprev)
            && (t.avprev == Timestamp(m, k) || Timestamp(m, k) - Prefuzz(m) <= t.avprev < Timestamp(m, k) + Tpf(m)))
      && (rv != 0 ==> if 0 <= k < m.frames then t.avprev == -1 else t == s)
  {
    if 0 <= k < m.frames {
      var ts := Timestamp(m, k);
      ScanResult(m, s.(avprev := -1), ts, 600, false);
      if m.seekTo(ts).Some? {
        ScanResult(m, Flushed(s).(avprev := -1, pos := m.seekTo(ts).value), ts, 600, false);
      }
    }
  }

  /** The window is from one tick before the tick T of frame k, or T itself if a frame has 10 ticks or fewer, to before T + D, with D ticks a frame. */
  lemma SeekWindow(m: Movie, s: State, k: int, T: int, D: int)
    requires m.den > 0 && m.videoStream >= 0 && Truthful(m, s)
    requires 0 <= k < m.frames && IsTick(m.num, m.den, k, T) && IsTick(m.num, m.den, 1, D)
    ensures var (rv, t) := SeekFrame(m, s, k);
      rv == 0 ==> ShowsPts(m, t, t.avprev) && (t.avprev == T || T - (if D > 10 then 1 else 0) <= t.avprev < T + D)
  {
    SeekResult(m, s, k);
    TickIsTimestamp(m, k, T);
    TickIsTimestamp(m, 1, D);
  }

  // ---------------------------------------------------------------------------------
  // Constant frame rate

  /** The last video keyframe among the first n packets whose pts is not after ts. */
  function LastKey(m: Movie, ts: int, n: nat): Option<nat>
  {
    if n == 0 then None
    else if IsVideo(m, n - 1) && m.packets[n - 1].key && IsFrameUpTo(m.packets[n - 1].outcome, ts) then Some(n - 1)
    else LastKey(m, ts, n - 1)
  }

  predicate IsFrameUpTo(o: Outcome, ts: int)
  {
    o.Frame? && o.pts.Some? && o.pts.value <= ts
  }

  /** Nowhere are there 600 or more video frames without a keyframe; the first is one. */
  predicate KeyNear(m: Movie, p: nat)
    requires p <= |m.packets|
  {
    exists q :: 0 <= q <= p && IsVideo(m, q) && m.packets[q].key && Index(m, p) < Index(m, q) + 600
  }

  /**
    A stream with constant frame rate: no errors, the pts of video frame i is the tick nearest
    to i times the ticks per frame, of which there is at least one, and the demuxer seeks to the
    last keyframe that is not after the timestamp.
    */
  ghost predicate ConstantRate(m: Movie)
  {
    && m.videoStream >= 0 && m.den > 0 && m.num >= m.den
    && m.frames <= Index(m, |m.packets|)
    && (forall p :: 0 <= p < |m.packets| ==> m.packets[p].Packet?)
    && (forall p: nat {:trigger IsVideo(m, p)} :: IsVideo(m, p) ==> HasTick(m, p, Index(m, p)))
    && (forall p: nat {:trigger KeyNear(m, p)} :: p < |m.packets| && IsVideo(m, p) ==> KeyNear(m, p))
    && (forall ts {:trigger m.seekTo(ts)} :: ts >= 0 ==> m.seekTo(ts) == LastKey(m, ts, |m.packets|))
  }

  predicate HasTick(m: Movie, p: nat, i: nat)
    requires IsVideo(m, p)
  {
    var o := m.packets[p].outcome;
    o.Frame? && o.pts.Some? && IsTick(m.num, m.den, i, o.pts.value)
  }

  lemma PtsIsTimestamp(m: Movie, p: nat)
    requires ConstantRate(m) && IsVideo(m, p)
    ensures m.packets[p].outcome == Frame(Some(Timestamp(m, Index(m, p))))
  {
    TickIsTimestamp(m, Index(m, p), m.packets[p].outcome.pts.value);
  }

  lemma MulCancel(a: int, b: int, d: int)
    requires d > 0 && a * d < b * d
    ensures a < b
  {
    assert (a - b) * d < 0;
  }

  lemma MulLess(a: nat, b: nat, d: nat)
    requires a <= b
    ensures a * d <= b * d
  {
  }

  lemma DivAtLeast(x: nat, d: nat, q: nat)
    requires d > 0 && x >= q * d
    ensures x / d >= q
  {
    assert x == (x / d) * d + x % d;
    assert (x / d + 1) * d == (x / d) * d + d;
    MulCancel(q, x / d + 1, d);
  }

  lemma DivAtMost(x: nat, d: nat, q: nat)
    requires d > 0 && x < (q + 1) * d
    ensures x / d <= q
  {
    assert x == (x / d) * d + x % d;
    MulCancel(x / d, q + 1, d);
  }

  lemma DivAdd(a: nat, b: nat, d: nat)
    requires d > 0
    ensures (a + b) / d >= a / d + b / d
  {
    DivMod(a, d);
    DivMod(b, d);
    SumAtLeast(a, b, d, a / d, b / d);
  }

  lemma DivMod(a: nat, d: nat)
    requires d > 0
    ensures (a / d) * d <= a
  {
  }

  lemma SumAtLeast(a: nat, b: nat, d: nat, q: nat, r: nat)
    requires d > 0 && q * d <= a && r * d <= b
    ensures (a + b) / d >= q + r
  {
    assert (q + r) * d == q * d + r * d;
    DivAtLeast(a + b, d, q + r);
  }

  lemma OneMore(n: int, q: int)
    ensures (n + 1) * q == n * q + q
  {
  }

  lemma NextTimestamp(m: Movie, k: nat)
    requires m.den > 0
    ensures Timestamp(m, k + 1) >= Timestamp(m, k) + m.num / m.den
  {
    OneMore(k, m.num);
    DivAdd(k * m.num + m.den / 2, m.num, m.den);
  }

  /** Timestamps of later frames are later by at least the whole ticks per frame. */
  lemma {:induction false} TimestampsApart(m: Movie, i: nat, k: nat)
    requires m.den > 0 && i <= k
    ensures Timestamp(m, k) >= Timestamp(m, i) + (k - i) * (m.num / m.den)
    decreases k - i
  {
    if i < k {
      TimestampsApart(m, i, k - 1);
      NextTimestamp(m, k - 1);
      OneMore(k - 1 - i, m.num / m.den);
    }
  }

  lemma TicksPerFrame(m: Movie)
    requires m.den > 0 && m.num >= m.den
    ensures 1 <= m.num / m.den <= Tpf(m) <= m.num / m.den + 1
  {
    DivAtLeast(m.num, m.den, 1);
    DivAdd(m.num, m.den / 2, m.den);
    HalfMore(m.num, m.den, m.num / m.den);
  }

  lemma HalfMore(num: nat, den: nat, q: nat)
    requires den > 0 && q == num / den
    ensures (num + den / 2) / den <= q + 1
  {
    assert num == q * den + num % den;
    assert (q + 2) * den == q * den + 2 * den;
    DivAtMost(num + den / 2, den, q + 1);
  }

  /** No earlier frame is taken for frame k. */
  lemma EarlierIsTooEarly(m: Movie, i: nat, k: nat)
    requires m.den > 0 && m.num >= m.den && i < k
    ensures Timestamp(m, i) + Prefuzz(m) < Timestamp(m, k)
  {
    TicksPerFrame(m);
    TimestampsApart(m, i, k);
    MulLess(1, k - i, m.num / m.den);
  }

  /** Frames that the forward path reaches are not far away. */
  lemma ForwardIsNear(m: Movie, j: nat, k: nat)
    requires m.den > 0 && m.num >= m.den && j <= k && Timestamp(m, j) + 32 * Tpf(m) >= Timestamp(m, k)
    ensures k - j <= 64
  {
    TicksPerFrame(m);
    TimestampsApart(m, j, k);
    NotFar(k - j, m.num / m.den, Timestamp(m, k) - Timestamp(m, j), Tpf(m));
  }

  lemma NotFar(n: nat, q: nat, distance: int, tpf: nat)
    requires 1 <= q && tpf <= q + 1 && n * q <= distance <= 32 * tpf
    ensures n <= 64
  {
    MulCancel(n, 65, q);
  }

  lemma {:induction false} IndexGrows(m: Movie, p: nat, q: nat)
    requires p <= q
    ensures Index(m, p) <= Index(m, q)
    ensures p < q && IsVideo(m, p) ==> Index(m, p) < Index(m, q)
    decreases q - p
  {
    if p < q {
      IndexGrows(m, p + 1, q);
    }
  }

  /** A frame number is that of one packet only. */
  lemma OnePacketPerFrame(m: Movie, p: nat, q: nat)
    requires IsVideo(m, p) && IsVideo(m, q) && Index(m, p) == Index(m, q)
    ensures p == q
  {
    if p < q {
      IndexGrows(m, p, q);
    } else if q < p {
      IndexGrows(m, q, p);
    }
  }

  lemma {:induction false} PacketOfFrame(m: Movie, k: nat, n: nat) returns (p: nat)
    requires k < Index(m, n)
    ensures p < n && IsVideo(m, p) && Index(m, p) == k
  {
    if IsVideo(m, n - 1) && Index(m, n - 1) == k {
      p := n - 1;
    } else {
      p := PacketOfFrame(m, k, n - 1);
    }
  }

  lemma {:induction false} LastKeyIsLast(m: Movie, ts: int, n: nat, q: nat)
    requires n <= |m.packets| && q < n && IsVideo(m, q) && m.packets[q].key && IsFrameUpTo(m.packets[q].outcome, ts)
    ensures var r := LastKey(m, ts, n);
      r.Some? && q <= r.value < n && IsVideo(m, r.value) && m.packets[r.value].key && IsFrameUpTo(m.packets[r.value].outcome, ts)
  {
    if !(IsVideo(m, n - 1) && m.packets[n - 1].key && IsFrameUpTo(m.packets[n - 1].outcome, ts)) {
      LastKeyIsLast(m, ts, n - 1, q);
    }
  }

  lemma KeyBefore(m: Movie, k: nat) returns (q: nat)
    requires ConstantRate(m) && k < Index(m, |m.packets|)
    ensures IsVideo(m, q) && m.packets[q].key && Index(m, q) <= k < Index(m, q) + 600
  {
    var p := PacketOfFrame(m, k, |m.packets|);
    assert KeyNear(m, p);
    q :| 0 <= q <= p && IsVideo(m, q) && m.packets[q].key && Index(m, p) < Index(m, q) + 600;
    IndexGrows(m, q, p);
  }

  /** Frames are in order by their timestamps. */
  lemma TimestampOrder(m: Movie, p: nat, k: nat)
    requires ConstantRate(m) && IsVideo(m, p)
    ensures IsFrameUpTo(m.packets[p].outcome, Timestamp(m, k)) <==> Index(m, p) <= k
  {
    var i := Index(m, p);
    PtsIsTimestamp(m, p);
    if i <= k {
      TimestampsApart(m, i, k);
      MulLess(0, k - i, m.num / m.den);
    } else {
      EarlierIsTooEarly(m, k, i);
    }
  }

  /** A seek lands on a keyframe fewer than 600 frames before the wanted one. */
  lemma SeekLandsNear(m: Movie, k: nat)
    requires ConstantRate(m) && k < Index(m, |m.packets|)
    ensures var r := m.seekTo(Timestamp(m, k));
      && r.Some? && IsVideo(m, r.value) && m.packets[r.value].key
      && Index(m, r.value) <= k < Index(m, r.value) + 600
  {
    var q := KeyBefore(m, k);
    TimestampOrder(m, q, k);
    LastKeyIsLast(m, Timestamp(m, k), |m.packets|, q);
    var r := LastKey(m, Timestamp(m, k), |m.packets|).value;
    IndexGrows(m, q, r);
    TimestampOrder(m, r, k);
  }

  /** Frame k is shown, intact, and the next packet is the one after it. */
  predicate Shows(m: Movie, s: State, k: nat)
    requires m.den > 0
  {
    && s.pos > 0 && IsVideo(m, s.pos - 1) && Index(m, s.pos - 1) == k
    && s.shown == Some(Shot(s.pos - 1, true))
    && s.refs == Some(k + 1)
    && IsTick(m.num, m.den, k, s.avprev)
  }

  /** Reading on from a keyframe, or from where the last frame ended, finds frame k. */
  lemma {:induction false} ScanFinds(m: Movie, s: State, k: nat, bailout: int, again: bool)
    requires ConstantRate(m) && Index(m, s.pos) <= k < Index(m, |m.packets|) && bailout > k - Index(m, s.pos)
    requires s.refs == Some(Index(m, s.pos)) || (IsVideo(m, s.pos) && m.packets[s.pos].key)
    ensures var (rv, t) := Scan(m, s, Timestamp(m, k), bailout, again); rv == 0 && Shows(m, t, k)
    decreases |m.packets| - s.pos
  {
    if s.pos >= |m.packets| {
      IndexGrows(m, |m.packets|, s.pos);
    } else if !IsVideo(m, s.pos) {
      ScanFinds(m, s.(pos := s.pos + 1), k, bailout, again);
    } else if Index(m, s.pos) < k {
      PtsIsTimestamp(m, s.pos);
      EarlierIsTooEarly(m, Index(m, s.pos), k);
      ScanFinds(m, Decoded(m, s), k, bailout - 1, true);
    } else {
      PtsIsTimestamp(m, s.pos);
      TimestampIsTick(m, k);
      TicksPerFrame(m);
    }
  }

  /** Between two seeks on such a stream. */
  predicate Ready(m: Movie, s: State)
    requires m.den > 0
  {
    s.avprev == -1 || (s.pos > 0 && Shows(m, s, Index(m, s.pos - 1)))
  }

  /** Whatever was shown before, seeking to frame k shows frame k, intact. */
  lemma SeekIsExact(m: Movie, s: State, k: nat)
    requires ConstantRate(m) && Ready(m, s) && k < m.frames
    ensures var (rv, t) := SeekFrame(m, s, k); rv == 0 && Shows(m, t, k) && Ready(m, t)
  {
    var ts := Timestamp(m, k);
    if s.avprev == -1 {
      SeekLandsNear(m, k);
      ScanFinds(m, Flushed(s).(avprev := -1, pos := m.seekTo(ts).value), k, 600, false);
    } else {
      var j := Index(m, s.pos - 1);
      TickIsTimestamp(m, j, s.avprev);
      if j < k {
        EarlierIsTooEarly(m, j, k);
      } else if k < j {
        EarlierIsTooEarly(m, k, j);
      }
      if s.avprev == ts {
        assert j == k;
      } else if s.avprev >= ts || s.avprev + 32 * Tpf(m) < ts {
        SeekLandsNear(m, k);
        ScanFinds(m, Flushed(s).(avprev := -1, pos := m.seekTo(ts).value), k, 600, false);
      } else {
        ForwardIsNear(m, j, k);
        ScanFinds(m, s.(avprev := -1), k, 600, false);
      }
    }
  }

  const OPENED := State(0, -1, None, None)

  /** The state after a sequence of seeks. */
  function AfterSeeks(m: Movie, s: State, ks: seq<int>): State
    requires m.den > 0
  {
    if ks == [] then s else SeekFrame(m, AfterSeeks(m, s, ks[..|ks| - 1]), ks[|ks| - 1]).1
  }

  lemma {:induction false} SeeksKeepReady(m: Movie, ks: seq<int>)
    requires ConstantRate(m)
    ensures Ready(m, AfterSeeks(m, OPENED, ks))
  {
    if ks != [] {
      var s, k := AfterSeeks(m, OPENED, ks[..|ks| - 1]), ks[|ks| - 1];
      SeeksKeepReady(m, ks[..|ks| - 1]);
      if 0 <= k < m.frames {
        SeekIsExact(m, s, k);
      }
    }
  }

  /** History independence: after any seeks, a seek shows what it shows in a movie just opened. */
  lemma HistoryIndependent(m: Movie, ks: seq<int>, k: nat)
    requires ConstantRate(m) && k < m.frames
    ensures var (rv, t) := SeekFrame(m, AfterSeeks(m, OPENED, ks), k);
      var (rv0, t0) := SeekFrame(m, OPENED, k);
      rv == rv0 == 0 && t.shown == t0.shown && t.avprev == t0.avprev && IsTick(m.num, m.den, k, t.avprev)
  {
    SeeksKeepReady(m, ks);
    SeekIsExact(m, AfterSeeks(m, OPENED, ks), k);
    SeekIsExact(m, OPENED, k);
    var t, t0 := SeekFrame(m, AfterSeeks(m, OPENED, ks), k).1, SeekFrame(m, OPENED, k).1;
    OnePacketPerFrame(m, t.pos - 1, t0.pos - 1);
    OneTick(m.num, m.den, k, t.avprev, t0.avprev);
  }

  // ---------------------------------------------------------------------------------
  // Where timestamps are off by one

  /**
    If the frame accepted for k carried a pts one tick early, seeking to k again reads on, and
    shows the next packet's frame exactly if that lies in the window too.
    */
  lemma SecondSeekShowsNextIff(m: Movie, s: State, k: int, pts: int)
    requires m.den > 0 && m.videoStream >= 0 && 0 <= k < m.frames && Tpf(m) > 0
    requires s.avprev == Timestamp(m, k) - 1 && s.avprev >= 0
    requires IsVideo(m, s.pos) && m.packets[s.pos].outcome == Frame(Some(pts))
    ensures var (rv, t) := SeekFrame(m, s, k);
      rv == 0 && t.shown.Some? && t.shown.value.at == s.pos <==>
        Timestamp(m, k) - Prefuzz(m) <= pts < Timestamp(m, k) + Tpf(m)
  {
    ScanResult(m, s.(avprev := -1), Timestamp(m, k), 600, false);
  }

  /** A stream without errors, whose frames have increasing pts, and a demuxer that seeks to the last keyframe not after the timestamp. */
  ghost predicate Ordered(m: Movie)
  {
    && m.videoStream >= 0 && m.den > 0
    && (forall p :: 0 <= p < |m.packets| ==> m.packets[p].Packet?)
    && (forall p: nat {:trigger IsVideo(m, p)} :: IsVideo(m, p) ==> m.packets[p].outcome.Frame? && m.packets[p].outcome.pts.Some?)
    && (forall p: nat, q: nat {:trigger IsVideo(m, p), IsVideo(m, q)} :: IsVideo(m, p) && IsVideo(m, q) && p < q ==> PtsOf(m, p) < PtsOf(m, q))
    && (forall ts {:trigger m.seekTo(ts)} :: ts >= 0 ==> m.seekTo(ts) == LastKey(m, ts, |m.packets|))
  }

  function PtsOf(m: Movie, p: nat): int
  {
    if IsVideo(m, p) && m.packets[p].outcome.Frame? && m.packets[p].outcome.pts.Some? then m.packets[p].outcome.pts.value else -1
  }

  /** The first video packet from p on. */
  function NextVideo(m: Movie, p: nat): (n: Option<nat>)
    ensures n.Some? ==> p <= n.value && IsVideo(m, n.value)
    ensures forall q :: p <= q < (if n.Some? then n.value else |m.packets|) ==> !IsVideo(m, q)
    decreases |m.packets| - p
  {
    if p >= |m.packets| then None
    else if IsVideo(m, p) then Some(p)
    else NextVideo(m, p + 1)
  }

  /** Packets of other streams do not count. */
  lemma {:induction false} ScanSkips(m: Movie, s: State, n: nat, ts: nat, bailout: int, again: bool)
    requires Ordered(m) && bailout > 0 && s.pos <= n <= |m.packets|
    requires forall q :: s.pos <= q < n ==> !IsVideo(m, q)
    ensures Scan(m, s, ts, bailout, again) == Scan(m, s.(pos := n), ts, bailout, again)
    decreases n - s.pos
  {
    if s.pos < n {
      assert !IsVideo(m, s.pos);
      ScanSkips(m, s.(pos := s.pos + 1), n, ts, bailout, again);
    }
  }

  lemma {:induction false} ScanRunsOut(m: Movie, s: State, ts: nat, bailout: int, again: bool)
    requires m.den > 0 && s.pos >= |m.packets|
    ensures Scan(m, s, ts, bailout, again).0 == -5
    decreases Max0(bailout)
  {
    if bailout > 0 {
      ScanRunsOut(m, s, ts, if m.videoStream == 0 then bailout - 2 else bailout - 1, again);
    }
  }

  /** Reading on from a keyframe shows the packet at `at` if bailout lasts, and gives up if not. */
  lemma {:induction false} ScanReaches(m: Movie, s: State, at: nat, ts: nat, bailout: int)
    requires Ordered(m) && s.pos <= at && IsVideo(m, at) && Index(m, s.pos) <= Index(m, at)
    requires ts - Prefuzz(m) <= PtsOf(m, at) < ts + Tpf(m)
    requires forall p: nat {:trigger IsVideo(m, p)} :: IsVideo(m, p) && p < at ==> PtsOf(m, p) + Prefuzz(m) < ts
    requires bailout > 0 ==> s.refs == Some(Index(m, s.pos)) || (IsVideo(m, s.pos) && m.packets[s.pos].key)
    ensures var (rv, t) := Scan(m, s, ts, bailout, true);
      if bailout > Index(m, at) - Index(m, s.pos) then rv == 0 && t.shown == Some(Shot(at, true)) else rv == -5
    decreases at - s.pos
  {
    if bailout > 0 && s.pos < at {
      IndexGrows(m, s.pos + 1, at);
      if !IsVideo(m, s.pos) {
        ScanReaches(m, s.(pos := s.pos + 1), at, ts, bailout);
      } else {
        ScanReaches(m, Decoded(m, s), at, ts, bailout - 1);
      }
    }
  }

  /**
    Seeking again to a frame that was accepted one tick early shows the same frame again exactly
    if the next one is beyond the window, so that the stream is sought again from 25 frames
    before, and that seek finds a keyframe from which the frame is reached before bailout ends.
    */
  lemma SecondSeekShowsSameIff(m: Movie, s: State, k: int, at: nat)
    requires Ordered(m) && Prefuzz(m) == 1 && 0 <= k < m.frames
    requires s.avprev == Timestamp(m, k) - 1 && s.avprev >= 0
    requires s.shown.Some? && s.shown.value.at == at && s.pos == at + 1 && ShowsPts(m, s, s.avprev)
    ensures var (rv, t) := SeekFrame(m, s, k);
      var n, r := NextVideo(m, s.pos), m.seekTo(Max0(Timestamp(m, k) - Tpf(m) * 25));
      rv == 0 && t.shown.Some? && t.shown.value.at == at <==>
        && n.Some? && PtsOf(m, n.value) >= Timestamp(m, k) + Tpf(m)
        && r.Some? && Index(m, at) < Index(m, r.value) + 599
  {
    var ts, n, u := Timestamp(m, k), NextVideo(m, s.pos), s.(avprev := -1);
    if n.None? {
      ScanSkips(m, u, |m.packets|, ts, 600, false);
      ScanRunsOut(m, u.(pos := |m.packets|), ts, 600, false);
    } else {
      ScanSkips(m, u, n.value, ts, 600, false);
      assert PtsOf(m, at) < PtsOf(m, n.value);
      if PtsOf(m, n.value) >= ts + Tpf(m) {
        SeeksBack(m, Decoded(m, u.(pos := n.value)), ts, at);
      }
    }
  }

  lemma SeeksBack(m: Movie, s: State, ts: nat, at: nat)
    requires Ordered(m) && Prefuzz(m) == 1 && ts > 0 && IsVideo(m, at) && PtsOf(m, at) == ts - 1
    ensures var r := m.seekTo(Max0(ts - Tpf(m) * 25));
      r.Some? ==>
        var (rv, t) := Scan(m, Flushed(s).(pos := r.value), ts, 599, true);
        if Index(m, at) < Index(m, r.value) + 599 then rv == 0 && t.shown == Some(Shot(at, true)) else rv == -5
  {
    var target := Max0(ts - Tpf(m) * 25);
    var r := m.seekTo(target);
    if r.Some? {
      LastKeyIsKey(m, target, |m.packets|);
      assert r.value > at ==> PtsOf(m, at) < PtsOf(m, r.value);
      IndexGrows(m, r.value, at);
      ScanReaches(m, Flushed(s).(pos := r.value), at, ts, 599);
    }
  }

  lemma {:induction false} LastKeyIsKey(m: Movie, ts: int, n: nat)
    ensures var r := LastKey(m, ts, n);
      r.Some? ==> r.value < n && IsVideo(m, r.value) && m.packets[r.value].key && IsFrameUpTo(m.packets[r.value].outcome, ts)
  {
    if n > 0 && !(IsVideo(m, n - 1) && m.packets[n - 1].key && IsFrameUpTo(m.packets[n - 1].outcome, ts)) {
      LastKeyIsKey(m, ts, n - 1);
    }
  }

  /** Four keyframes for 100 ticks a frame, the second a tick early and the third a tick late. */
  function OvershotMovie(): Movie
  {
    var at := (pts: int) => Packet(0, true, Frame(Some(pts)));
    Movie([at(0), at(99), at(201), at(300)], 0, 100, 1, 4,
          ts => if ts < 0 then None else Some(if ts < 99 then 0 else if ts < 201 then 1 else if ts < 300 then 2 else 3))
  }

  /** Asked for twice, frame 1 is shown twice. */
  lemma OvershotStream()
    ensures var (rv, s) := SeekFrame(OvershotMovie(), OPENED, 1);
      var (rv', s') := SeekFrame(OvershotMovie(), s, 1);
      rv == rv' == 0 && s.shown == s'.shown == Some(Shot(1, true))
  {
    var m := OvershotMovie();
    var s := SeekFrame(m, OPENED, 1).1;
    assert s.pos == 2 && s.avprev == 99 && s.shown == Some(Shot(1, true));
    var over := Flushed(Decoded(m, s.(avprev := -1)));
    var key := Decoded(m, over.(pos := 0));
    assert Scan(m, key, 100, 598, true).0 == 0 && Scan(m, key, 100, 598, true).1.shown == Some(Shot(1, true));
    assert Scan(m, over.(pos := 0), 100, 599, true) == Scan(m, key, 100, 598, true);
    assert Scan(m, s.(avprev := -1), 100, 600, false) == Scan(m, over.(pos := 0), 100, 599, true);
  }

  /** Four keyframes at 0, 99, 199 and 299 for 100 ticks a frame: frame 1 asked for twice. */
  lemma FuzzyStream()
    ensures var at := (pts: int) => Packet(0, true, Frame(Some(pts)));
      var m := Movie([at(0), at(99), at(199), at(299)], 0, 100, 1, 4, ts => if ts < 0 then None else Some(ts / 100));
      var (rv, s) := SeekFrame(m, OPENED, 1);
      var (rv', s') := SeekFrame(m, s, 1);
      rv == rv' == 0 && s.shown == Some(Shot(1, true)) && s'.shown == Some(Shot(2, true))
  {
  }

  // ---------------------------------------------------------------------------------
  // The method

  class Player {
    const m: Movie
    var pos: nat
    var avprev: int
    var shown: Option<Shot>
    var refs: Option<nat>

    ghost function View(): State
      reads this
    {
      State(pos, avprev, shown, refs)
    }

    constructor (m: Movie)
      ensures this.m == m && View() == OPENED
    {
      this.m := m;
      pos, avprev, shown, refs := 0, -1, None, None;
    }

    /** my_seek_frame */
    method MySeekFrame(framenumber: int) returns (rv: int)
      requires m.den > 0
      modifies this
      ensures (rv, View()) == SeekFrame(m, old(View()), framenumber)
    {
      if m.videoStream < 0 {
        return 0;
      }
      if framenumber < 0 || framenumber >= m.frames {
        return -1;
      }
      var timestamp := Timestamp(m, framenumber);
      if avprev == timestamp {
        return 0;
      }
      rv := 0;
      if avprev < 0 || avprev >= timestamp || avprev + 32 * Tpf(m) < timestamp {
        var target := m.seekTo(timestamp);
        if target.Some? {
          pos := target.value;
        } else {
          rv := -1;
        }
        refs := None;
      }
      avprev := -1;
      if rv < 0 {
        return -1;
      }
      rv := ReadOn(timestamp);
    }

    method ReadOn(timestamp: nat) returns (rv: int)
      requires m.den > 0
      modifies this
      ensures (rv, View()) == Scan(m, old(View()), timestamp, 600, false)
    {
      var bailout, decoded := 600, 0;
      while bailout > 0
        invariant decoded >= 0
        invariant Scan(m, View(), timestamp, bailout, decoded > 0) == Scan(m, old(View()), timestamp, 600, false)
        decreases Max0(bailout), |m.packets| - pos
      {
        if pos >= |m.packets| {
          bailout := bailout - 1;
          if m.videoStream == 0 {
            bailout := bailout - 1;
          }
          continue;
        }
        if m.packets[pos].ReadError? {
          pos := pos + 1;
          return -1;
        }
        if m.packets[pos].stream != m.videoStream {
          pos := pos + 1;
          continue;
        }
        var frame := Decode();
        match frame {
          case Broken => return -10;
          case Nothing => bailout := bailout - 1;
          case Frame(None) => return -7;
          case Frame(Some(pts)) =>
            if pts + Prefuzz(m) >= timestamp {
              if pts - timestamp < Tpf(m) {
                avprev := pts;
                return 0;
              }
              if decoded != 0 {
                return -2;
              }
              var target := m.seekTo(Max0(timestamp - Tpf(m) * 25));
              refs := None;
              if target.None? {
                return -3;
              }
              pos := target.value;
            }
            bailout := bailout - 1;
            decoded := decoded + 1;
        }
      }
      rv := -5;
    }

    method Decode() returns (frame: Outcome)
      requires IsVideo(m, pos)
      modifies this
      ensures View() == Decoded(m, old(View())) && frame == m.packets[old(pos)].outcome
    {
      var packet := m.packets[pos];
      frame := packet.outcome;
      var intact := packet.key || refs == Some(Index(m, pos));
      refs := None;
      if frame.Frame? {
        shown := Some(Shot(pos, intact));
        if intact {
          refs := Some(Index(m, pos) + 1);
        }
      }
      pos := pos + 1;
    }
  }
}
