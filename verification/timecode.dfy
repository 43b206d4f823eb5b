/**
  Drop-frame and non-drop timecode (libharvid/timecode.c) and its second implementation in the
  web player (settc in doc/seek.js).  Doubles are exact reals.  The only caller of
  timecode_sample_to_time passes the frame rate as sample rate.
  */
module Timecode {
  import opened Conversions
  import opened Division

  datatype Rate = Rate(num: nat, den: nat, drop: bool, subframes: nat)

  datatype Time = Time(hour: int, minute: int, second: int, frame: int, subframe: int)

  /** C division: towards zero */
  function CDiv(a: int, b: int): int
    requires b > 0
  {
    if a >= 0 then Quotient(a, b) else -(Quotient(-a, b) as int)
  }

  function CMod(a: int, b: int): int
    requires b > 0
  {
    a - CDiv(a, b) * b
  }

  /** Math.floor of a quotient */
  function FloorDiv(a: int, b: int): int
    requires b > 0
  {
    if a >= 0 then Quotient(a, b) else -(Quotient(b - 1 - a, b) as int)
  }

  function Fps(r: Rate): real
    requires r.den > 0
  {
    r.num as real / r.den as real
  }

  function Ceil(x: real): (c: int)
    ensures x <= c as real < x + 1.0
    ensures x > 0.0 ==> c >= 1
  {
    if x == x.Floor as real then x.Floor else x.Floor + 1
  }

  /** rint: to the nearest integer, halves to the even one */
  function Rint(x: real): int
  {
    var d := x - x.Floor as real;
    if d < 0.5 || (d == 0.5 && x.Floor % 2 == 0) then x.Floor else x.Floor + 1
  }

  // ---------------------------------------------------------------------------------
  // Numbering

  /** The number of a label: frames counted at 30 a second, dropped ones included. */
  function LabelNumber(f: int): int
  {
    f + 18 * CDiv(f, 17982) + 2 * CDiv(CMod(f, 17982) - 2, 1798)
  }

  function Split(n: int, fps: int): Time
    requires fps > 0
  {
    var s := CDiv(n, fps);
    Time(CDiv(CDiv(s, 60), 60), CMod(CDiv(s, 60), 60), CMod(s, 60), CMod(n, fps), 0)
  }

  function TimeOf(r: Rate, f: int): Time
    requires r.num > 0 && r.den > 0
  {
    if r.drop then Split(LabelNumber(f), 30) else Split(f, Ceil(Fps(r)))
  }

  /** The frame with a given label: two labels are missing in every minute but each tenth. */
  function FrameOf(n: nat): int
  {
    n - 2 * (Quotient(n, 1800) - Quotient(n, 18000))
  }

  /** Frame 00 or 01 of second 0 in a minute not divisible by 10. */
  predicate Dropped(t: Time)
  {
    CMod(t.minute, 10) != 0 && t.second == 0 && t.frame < 2
  }

  /** Label number and h:m:s:f determine each other. */
  lemma SplitIsExact(n: nat, fps: nat)
    requires fps > 0
    ensures var t := Split(n, fps);
      && n == ((t.hour * 60 + t.minute) * 60 + t.second) * fps + t.frame
      && t.hour >= 0 && 0 <= t.minute < 60 && 0 <= t.second < 60 && 0 <= t.frame < fps
  {
    var s := Quotient(n, fps);
    QuotientRemainder(n, fps);
    QuotientRemainder(s, 60);
    QuotientRemainder(Quotient(s, 60), 60);
  }

  lemma SplitIs(n: nat, fps: nat, h: nat, m: nat, s: nat, r: nat)
    requires m < 60 && s < 60 && r < fps && n == ((h * 60 + m) * 60 + s) * fps + r
    ensures Split(n, fps) == Time(h, m, s, r, 0)
  {
    QuotientUnique(n, (h * 60 + m) * 60 + s, r, fps);
    QuotientUnique((h * 60 + m) * 60 + s, h * 60 + m, s, 60);
    QuotientUnique(h * 60 + m, h, m, 60);
  }

  /**
    Frame and label in step: `d` blocks of ten minutes, `k` minutes of 1798 frames and 1800
    labels, and `x` more; the first minute of a block has all of its labels.
    */
  predicate InStep(d: nat, k: nat, x: nat)
  {
    k < 10 && x < 1800 && (k > 0 ==> x >= 2)
  }

  function FrameAt(d: nat, k: nat, x: nat): nat
  {
    17982 * d + 1798 * k + x
  }

  function LabelAt(d: nat, k: nat, x: nat): nat
  {
    18000 * d + 1800 * k + x
  }

  lemma LabelInStep(d: nat, k: nat, x: nat)
    requires InStep(d, k, x)
    ensures LabelNumber(FrameAt(d, k, x)) == LabelAt(d, k, x)
  {
    var m := 1798 * k + x;
    QuotientUnique(FrameAt(d, k, x), d, m, 17982);
    if m >= 2 {
      QuotientUnique(m - 2, k, x - 2, 1798);
    } else {
      QuotientUnique(2 - m, 0, 2 - m, 1798);
    }
  }

  lemma StepOfFrame(f: nat) returns (d: nat, k: nat, x: nat)
    ensures InStep(d, k, x) && f == FrameAt(d, k, x) && d == Quotient(f, 17982)
    ensures CMod(f, 17982) == 1798 * k + x
  {
    d := Quotient(f, 17982);
    QuotientRemainder(f, 17982);
    var m := f - 17982 * d;
    if m < 2 {
      k, x := 0, m;
    } else {
      k := Quotient(m - 2, 1798);
      QuotientRemainder(m - 2, 1798);
      x := m - 1798 * k;
    }
  }

  lemma StepOfLabel(n: nat) returns (d: nat, k: nat, x: nat)
    ensures k < 10 && x < 1800 && n == LabelAt(d, k, x)
  {
    d := Quotient(n, 18000);
    QuotientRemainder(n, 18000);
    var r := n - 18000 * d;
    k := Quotient(r, 1800);
    QuotientRemainder(r, 1800);
    x := r - 1800 * k;
  }

  lemma LabelQuotients(d: nat, k: nat, x: nat)
    requires k < 10 && x < 1800
    ensures FrameOf(LabelAt(d, k, x)) == FrameAt(d, k, x)
  {
    QuotientUnique(LabelAt(d, k, x), 10 * d + k, x, 1800);
    QuotientUnique(LabelAt(d, k, x), d, 1800 * k + x, 18000);
  }

  /** The labels that are dropped are those out of step. */
  lemma DroppedIsOutOfStep(d: nat, k: nat, x: nat)
    requires k < 10 && x < 1800
    ensures Dropped(Split(LabelAt(d, k, x), 30)) <==> !InStep(d, k, x)
  {
    var s := Quotient(x, 30);
    QuotientRemainder(x, 30);
    var h := Quotient(d, 6);
    QuotientRemainder(d, 6);
    var m := 10 * (d - 6 * h) + k;
    SplitIs(LabelAt(d, k, x), 30, h, m, s, x - 30 * s);
    QuotientUnique(m, d - 6 * h, k, 10);
  }

  /** Labels come in order, one or three further on. */
  lemma LabelsIncrease(f: nat)
    ensures LabelNumber(f + 1) == LabelNumber(f) + 1 || LabelNumber(f + 1) == LabelNumber(f) + 3
  {
    var d, k, x := StepOfFrame(f);
    var d', k', x' := NextStep(d, k, x);
    LabelInStep(d, k, x);
    LabelInStep(d', k', x');
  }

  lemma NextStep(d: nat, k: nat, x: nat) returns (d': nat, k': nat, x': nat)
    requires InStep(d, k, x)
    ensures InStep(d', k', x') && FrameAt(d', k', x') == FrameAt(d, k, x) + 1
    ensures LabelAt(d', k', x') == LabelAt(d, k, x) + 1 || LabelAt(d', k', x') == LabelAt(d, k, x) + 3
  {
    if x < 1799 {
      d', k', x' := d, k, x + 1;
    } else if k < 9 {
      d', k', x' := d, k + 1, 2;
    } else {
      d', k', x' := d + 1, 0, 0;
    }
  }

  lemma {:induction false} LabelsStrictlyIncrease(f: nat, g: nat)
    requires f < g
    ensures LabelNumber(f) < LabelNumber(g)
    decreases g - f
  {
    LabelsIncrease(g - 1);
    if f < g - 1 {
      LabelsStrictlyIncrease(f, g - 1);
    }
  }

  /** No frame gets a dropped label, and the label tells the frame. */
  lemma LabelOfFrame(f: nat)
    ensures LabelNumber(f) >= 0 && !Dropped(Split(LabelNumber(f), 30)) && FrameOf(LabelNumber(f)) == f
  {
    var d, k, x := StepOfFrame(f);
    LabelInStep(d, k, x);
    LabelQuotients(d, k, x);
    DroppedIsOutOfStep(d, k, x);
  }

  /** The labels that are not dropped are those of frames. */
  lemma FrameOfLabel(n: nat)
    ensures FrameOf(n) >= 0
    ensures !Dropped(Split(n, 30)) <==> LabelNumber(FrameOf(n)) == n
  {
    var d, k, x := StepOfLabel(n);
    DroppedIsOutOfStep(d, k, x);
    LabelQuotients(d, k, x);
    if InStep(d, k, x) {
      LabelInStep(d, k, x);
    } else {
      LabelOfFrame(FrameAt(d, k, x));
    }
  }

  /** Timecode stays close to the clock: 1000 n against 1001 f, but for 18 in ten minutes. */
  lemma Drift(f: nat)
    ensures -1799 <= 1000 * LabelNumber(f) - 1001 * f - 18 * CDiv(f, 17982) <= 1816
  {
    var d, k, x := StepOfFrame(f);
    LabelInStep(d, k, x);
  }

  // ---------------------------------------------------------------------------------
  // The player's version

  /** Is the rate taken for 29.97? */
  predicate PlayerDrops(fps: real)
  {
    (fps * 100.0).Floor == 2997
  }

  /** settc: JavaScript floors where C truncates. */
  function PlayerLabel(f: nat): int
  {
    f + 18 * FloorDiv(f, 17982) + 2 * FloorDiv(CMod(f, 17982) - 2, 1798)
  }

  /** The two agree exactly from the third frame of each ten minutes on; before, the player is two labels behind. */
  lemma PlayerAgreesIff(f: nat)
    ensures PlayerLabel(f) == LabelNumber(f) <==> CMod(f, 17982) >= 2
    ensures CMod(f, 17982) < 2 ==> PlayerLabel(f) == LabelNumber(f) - 2
  {
    QuotientRemainder(f, 17982);
    var m := CMod(f, 17982);
    if m < 2 {
      QuotientUnique(2 - m, 0, 2 - m, 1798);
      QuotientUnique(1799 - m, 1, 1 - m, 1798);
    }
  }

  /** JavaScript: Math.floor of a quotient, but % keeps the sign of the dividend. */
  function PlayerSplit(n: int, fps: int): Time
    requires fps > 0
  {
    var s := FloorDiv(n, fps);
    Time(FloorDiv(s, 3600), CMod(FloorDiv(s, 60), 60), CMod(s, 60), CMod(n, fps), 0)
  }

  function PlayerTime(fps: real, f: nat): Time
    requires fps > 0.0
  {
    if PlayerDrops(fps) then PlayerSplit(PlayerLabel(f), 30) else PlayerSplit(f, Ceil(fps))
  }

  /** The player shows what the server prints, exactly if the rate is not 29.97 or the frame is not one of those two. */
  lemma PlayerShowsTimecodeIff(r: Rate, f: nat)
    requires r.num > 0 && r.den > 0 && r.drop == PlayerDrops(Fps(r))
    ensures Fps(r) > 0.0 && Ceil(Fps(r)) >= 1
    ensures PlayerTime(Fps(r), f) == TimeOf(r, f) <==> !r.drop || CMod(f, 17982) >= 2
  {
    FpsPositive(r);
    PlayerAgreesIff(f);
    LabelOfFrame(f);
    if !r.drop {
      PlayerSplitIsSplit(f, Ceil(Fps(r)));
    } else if PlayerLabel(f) >= 0 {
      PlayerSplitIsSplit(PlayerLabel(f), 30);
      SplitIsExact(PlayerLabel(f), 30);
      SplitIsExact(LabelNumber(f), 30);
    } else {
      SplitIsExact(LabelNumber(f), 30);
      QuotientUnique(-PlayerLabel(f), 0, -PlayerLabel(f), 30);
    }
  }

  lemma PlayerSplitIsSplit(n: nat, fps: int)
    requires fps > 0
    ensures PlayerSplit(n, fps) == Split(n, fps)
  {
    QuotientOfQuotient(Quotient(n, fps), 60, 60);
  }

  /** The frames per second that timecode counts with: num/den, rounded up. */
  predicate RoundedUp(num: nat, den: nat, n: int)
  {
    (n - 1) * den < num <= n * den
  }

  /** h:m:s:f is the position of frame f, with n frames a second. */
  predicate IsPosition(t: Time, f: int, n: int)
  {
    && f == ((t.hour * 60 + t.minute) * 60 + t.second) * n + t.frame
    && t.hour >= 0 && 0 <= t.minute < 60 && 0 <= t.second < 60 && 0 <= t.frame < n && t.subframe == 0
  }

  lemma SplitIsPosition(f: nat, n: nat)
    requires n > 0
    ensures IsPosition(Split(f, n), f, n)
  {
    SplitIsExact(f, n);
  }

  lemma CeilRoundsUp(r: Rate)
    requires r.num > 0 && r.den > 0
    ensures RoundedUp(r.num, r.den, Ceil(Fps(r)))
  {
    var c := Ceil(Fps(r));
    RealProduct(r.num, r.den, c);
    RealProduct(r.num, r.den, c - 1);
  }

  lemma RealProduct(num: nat, den: nat, c: int)
    requires den > 0
    ensures num as real / den as real <= c as real <==> num <= c * den
  {
    var q := num as real / den as real;
    assert q * den as real == num as real;
    assert (c * den) as real == c as real * den as real;
    if q <= c as real {
      RealLess(q, c as real, den as real);
    } else {
      RealLess(c as real, q, den as real);
    }
  }

  lemma RealLess(x: real, y: real, d: real)
    requires d > 0.0 && x <= y
    ensures x * d <= y * d && (x < y ==> x * d < y * d)
  {
  }

  /** Without drop-frame numbering, a frame is at its position. */
  lemma TimeOfIsPosition(r: Rate, f: nat)
    requires r.num > 0 && r.den > 0 && !r.drop
    ensures RoundedUp(r.num, r.den, Ceil(Fps(r))) && IsPosition(TimeOf(r, f), f, Ceil(Fps(r)))
  {
    FpsPositive(r);
    CeilRoundsUp(r);
    SplitIsPosition(f, Ceil(Fps(r)));
  }

  lemma TimeMeans(r: Rate, f: int)
    requires r.num > 0 && r.den > 0
    ensures !r.drop && f >= 0 ==> exists n :: RoundedUp(r.num, r.den, n) && IsPosition(TimeOf(r, f), f, n)
    ensures r.drop && f >= 0 ==>
      LabelNumber(f) >= 0 && !Dropped(TimeOf(r, f)) && IsPosition(TimeOf(r, f), LabelNumber(f), 30) && FrameOf(LabelNumber(f)) == f
  {
    if f >= 0 {
      if r.drop {
        LabelOfFrame(f);
        SplitIsPosition(LabelNumber(f), 30);
      } else {
        TimeOfIsPosition(r, f);
      }
    }
  }

  lemma PlayerMeans(fps: real, f: nat)
    requires fps > 0.0
    ensures fps < 29.97 || fps >= 29.98 ==> exists n: nat :: fps <= n as real < fps + 1.0 && IsPosition(PlayerTime(fps, f), f, n)
  {
    PlayerDropsIff(fps);
    if !PlayerDrops(fps) {
      PlayerPosition(fps, f, Ceil(fps));
    }
  }

  lemma PlayerPosition(fps: real, f: nat, n: nat)
    requires fps > 0.0 && !PlayerDrops(fps) && n == Ceil(fps)
    ensures IsPosition(PlayerTime(fps, f), f, n)
  {
    PlayerSplitIsSplit(f, n);
    SplitIsPosition(f, n);
  }

  /** settc, up to the text it puts on the page */
  method Settc(fps: real, f: nat) returns (hour: int, min: int, sec: int, frame: int)
    requires fps > 0.0
    ensures Time(hour, min, sec, frame, 0) == PlayerTime(fps, f)
    ensures fps < 29.97 || fps >= 29.98 ==>
      exists n: nat :: fps <= n as real < fps + 1.0 && IsPosition(Time(hour, min, sec, frame, 0), f, n)
  {
    PlayerMeans(fps, f);
    var fpsi := Ceil(fps);
    var s;
    if (fps * 100.0).Floor == 2997 {
      var D := FloorDiv(f, 17982);
      var M := CMod(f, 17982);
      var n := f + 18 * D + 2 * FloorDiv(M - 2, 1798);
      s := FloorDiv(n, 30);
      frame := CMod(n, 30);
    } else {
      s := FloorDiv(f, fpsi);
      frame := CMod(f, fpsi);
    }
    hour := FloorDiv(s, 3600);
    min := CMod(FloorDiv(s, 60), 60);
    sec := CMod(s, 60);
  }

  /** PadDigits: zeros in front, up to the wanted number of characters */
  method PadDigits(n: string, totalDigits: nat) returns (r: string)
    ensures r == Rep('0', Monus(totalDigits, |n|)) + n
  {
    var pd := "";
    if totalDigits > |n| {
      var i := 0;
      while i < totalDigits - |n|
        invariant 0 <= i <= totalDigits - |n|
        invariant pd == Rep('0', i)
      {
        pd := pd + "0";
        i := i + 1;
      }
    }
    r := pd + n;
  }

  const TWO_DIGITS := Spec(true, false, false, true, false, 2, false, 0, Plain, 'd')

  lemma TwoDigitsC99(n: nat)
    ensures C99(TWO_DIGITS, n) == Rep('0', Monus(2, |Digits(n, 'd')|)) + Digits(n, 'd')
  {
    var d := Digits(n, 'd');
    assert Rep('0', 0) + d == d;
    assert C99Body(TWO_DIGITS, n) == d;
    assert Field(TWO_DIGITS, "", d) == "" + Rep('0', Monus(2, |d|)) + d;
  }

  lemma TwoDigitsArgument(n: nat)
    requires n < 0x8000_0000
    ensures ShortIsHarmless(TWO_DIGITS, n) && Printed(TWO_DIGITS, n) == n
  {
  }

  /** Padded to two digits, a number looks on the page as %02d prints it. */
  lemma PadDigitsIsPercent02d(n: nat)
    requires n < 0x8000_0000
    ensures Output(NumericPiece(TWO_DIGITS, IntArg(n))) == Rep('0', Monus(2, |Digits(n, 'd')|)) + Digits(n, 'd')
  {
    TwoDigitsArgument(n);
    ConversionLayoutIff(TWO_DIGITS, n);
    TwoDigitsC99(n);
  }

  /** The rates that get drop-frame numbering. */
  lemma PlayerDropsIff(fps: real)
    ensures PlayerDrops(fps) <==> 29.97 <= fps < 29.98
  {
  }

  /** 30000/1001 is a drop-frame rate for both. */
  lemma NtscDrops()
    ensures PlayerDrops(Fps(Rate(30000, 1001, true, 0)))
  {
    assert Fps(Rate(30000, 1001, true, 0)) * 100.0 == 3000000.0 / 1001.0;
  }

  // ---------------------------------------------------------------------------------
  // The methods

  class TimecodeTime {
    var hour: int
    var minute: int
    var second: int
    var frame: int
    var subframe: int

    ghost function View(): Time
      reads this
    {
      Time(hour, minute, second, frame, subframe)
    }

    constructor ()
    {
    }

    /** timecode_sample_to_time, called by timecode_framenumber_to_time with the frame rate as sample rate */
    method SampleToTime(r: Rate, samplerate: real, sample: int)
      requires r.num > 0 && r.den > 0 && samplerate == Fps(r)
      modifies this
      ensures View() == TimeOf(r, sample)
      ensures !r.drop && sample >= 0 ==> exists n :: RoundedUp(r.num, r.den, n) && IsPosition(View(), sample, n)
      ensures r.drop && sample >= 0 ==> !Dropped(View()) && LabelNumber(sample) >= 0 && IsPosition(View(), LabelNumber(sample), 30) && FrameOf(LabelNumber(sample)) == sample
    {
      var fps_d := Fps(r);
      var fps_i := Ceil(fps_d);
      FpsPositive(r);
      TimeMeans(r, sample);
      var exact := sample as real * fps_d / samplerate;
      SampleIsExact(sample, fps_d, samplerate);
      if r.drop {
        Drop(r, exact);
      } else {
        NonDrop(r, samplerate, sample);
      }
    }

    method Drop(r: Rate, exact: real)
      requires r.num > 0 && r.den > 0 && r.drop && exact == exact.Floor as real
      modifies this
      ensures View() == TimeOf(r, exact.Floor)
    {
      var frameNumber := exact.Floor;
      var D := CDiv(frameNumber, 17982);
      var M := CMod(frameNumber, 17982);
      var fraction := exact - frameNumber as real;
      RintOfNothing(r.subframes as real, fraction);
      var sub := Rint(r.subframes as real * fraction);
      if sub == r.subframes && r.subframes != 0 {
        sub := 0;
        frameNumber := frameNumber + 1;
      }
      subframe := sub;
      frameNumber := frameNumber + 18 * D + 2 * CDiv(M - 2, 1798);
      Label(frameNumber);
    }

    method Label(frameNumber: int)
      modifies `hour, `minute, `second, `frame
      ensures View() == Split(frameNumber, 30).(subframe := subframe)
    {
      frame := CMod(frameNumber, 30);
      second := CMod(CDiv(frameNumber, 30), 60);
      minute := CMod(CDiv(CDiv(frameNumber, 30), 60), 60);
      hour := CDiv(CDiv(CDiv(frameNumber, 30), 60), 60);
    }

    method NonDrop(r: Rate, samplerate: real, sample: int)
      requires r.num > 0 && r.den > 0 && !r.drop && samplerate == Fps(r)
      modifies this
      ensures View() == TimeOf(r, sample)
    {
      var fps_d := Fps(r);
      var fps_i := Ceil(fps_d);
      FpsPositive(r);
      var framesPerTimecodeFrame := samplerate / fps_d;
      SampleIsExact(1, fps_d, samplerate);
      OneFrameEach(fps_i, framesPerTimecodeFrame);
      var framesPerHour := (3600.0 * fps_i as real * framesPerTimecodeFrame).Floor;
      hour := CDiv(sample, framesPerHour);
      var rest := CMod(sample, framesPerHour);
      var left := Frames(r, rest, framesPerTimecodeFrame);
      MinutesAndLess(left, fps_i);
      SplitAtHours(sample, fps_i);
    }

    /** The whole frames and the subframes of the rest of an hour */
    method Frames(r: Rate, rest: int, framesPerTimecodeFrame: real) returns (left: int)
      requires framesPerTimecodeFrame == 1.0
      modifies `subframe
      ensures left == rest && subframe == 0
    {
      OneFrameEach(rest, framesPerTimecodeFrame);
      var exact := rest as real / framesPerTimecodeFrame;
      var fraction := exact - exact.Floor as real;
      RintOfNothing(r.subframes as real, fraction);
      var sub := Rint(fraction * r.subframes as real);
      left := exact.Floor;
      if sub == r.subframes && r.subframes != 0 {
        sub := 0;
        left := left + 1;
      }
      subframe := sub;
    }

    method MinutesAndLess(left: int, fps_i: int)
      requires fps_i > 0
      modifies `minute, `second, `frame
      ensures minute == CDiv(left, fps_i * 60)
      ensures second == CDiv(CMod(left, fps_i * 60), fps_i) && frame == CMod(CMod(left, fps_i * 60), fps_i)
    {
      minute := CDiv(left, fps_i * 60);
      var rest := CMod(left, fps_i * 60);
      second := CDiv(rest, fps_i);
      frame := CMod(rest, fps_i);
    }
  }

  lemma OneFrameEach(n: int, one: real)
    requires one == 1.0
    ensures (3600.0 * n as real * one).Floor == n * 3600
    ensures (n as real / one) == n as real && (n as real / one).Floor == n
  {
    assert 3600.0 * n as real * one == (n * 3600) as real;
  }

  lemma RintOfNothing(x: real, y: real)
    requires y == 0.0
    ensures Rint(x * y) == 0 && Rint(y * x) == 0
  {
    assert x * y == 0.0;
  }

  lemma FpsPositive(r: Rate)
    requires r.num > 0 && r.den > 0
    ensures Fps(r) > 0.0 && Ceil(Fps(r)) >= 1
  {
  }

  /** Dividing hours off first comes to the same. */
  lemma SplitAtHours(n: int, fps: int)
    requires fps > 0
    ensures SplitByHours(n, fps) == Split(n, fps)
  {
    if n >= 0 {
      SplitAtHoursNat(n, fps);
    } else {
      SplitAtHoursNat(-n, fps);
      SplitNegative(-n, fps);
    }
  }

  function SplitByHours(n: int, fps: int): Time
    requires fps > 0
  {
    var rest := CMod(n, fps * 3600);
    var left := CMod(rest, fps * 60);
    Time(CDiv(n, fps * 3600), CDiv(rest, fps * 60), CDiv(left, fps), CMod(left, fps), 0)
  }

  function Negated(t: Time): Time
  {
    Time(-t.hour, -t.minute, -t.second, -t.frame, -t.subframe)
  }

  lemma CNegative(a: int, b: int)
    requires b > 0
    ensures CDiv(-a, b) == -CDiv(a, b) && CMod(-a, b) == -CMod(a, b)
  {
    assert b * -CDiv(a, b) == -(b * CDiv(a, b));
  }

  lemma SplitNegative(n: int, fps: int)
    requires fps > 0
    ensures Split(-n, fps) == Negated(Split(n, fps))
    ensures SplitByHours(-n, fps) == Negated(SplitByHours(n, fps))
  {
    var s := CDiv(n, fps);
    CNegative(n, fps);
    CNegative(s, 60);
    CNegative(CDiv(s, 60), 60);
    var rest := CMod(n, fps * 3600);
    var left := CMod(rest, fps * 60);
    CNegative(n, fps * 3600);
    CNegative(rest, fps * 60);
    CNegative(left, fps);
  }

  /** Dividing by k units of fps, and what that leaves. */
  lemma Peel(n: nat, fps: int, k: int)
    requires fps > 0 && k > 0
    ensures fps * k > 0 && CMod(n, fps * k) >= 0
    ensures CDiv(n, fps * k) == CDiv(CDiv(n, fps), k)
    ensures CDiv(CMod(n, fps * k), fps) == CMod(CDiv(n, fps), k) && CMod(CMod(n, fps * k), fps) == CMod(n, fps)
  {
    Positive(fps, k);
    QuotientOfQuotient(n, fps, k);
    RemainderOfProduct(n, fps, k, fps * k);
  }

  lemma Positive(a: int, b: int)
    requires a > 0 && b > 0
    ensures a * b > 0
  {
  }

  lemma SplitAtHoursNat(n: nat, fps: int)
    requires fps > 0
    ensures SplitByHours(n, fps) == Split(n, fps)
  {
    var s := CDiv(n, fps);
    Peel(n, fps, 3600);
    Peel(CMod(n, fps * 3600), fps, 60);
    Sexagesimal(s);
  }

  lemma Sexagesimal(s: nat)
    ensures CDiv(s, 3600) == CDiv(CDiv(s, 60), 60)
    ensures CMod(s, 3600) >= 0 && CDiv(CMod(s, 3600), 60) == CMod(CDiv(s, 60), 60) && CMod(s, 60) == CMod(CMod(s, 3600), 60)
  {
    var q := Quotient(s, 60);
    QuotientOfQuotient(s, 60, 60);
    QuotientRemainder(s, 60);
    QuotientRemainder(q, 60);
    QuotientUnique(CMod(s, 3600), CMod(q, 60), CMod(s, 60), 60);
  }

  lemma SampleIsExact(sample: int, fps_d: real, samplerate: real)
    requires fps_d > 0.0 && samplerate == fps_d
    ensures sample as real * fps_d / samplerate == sample as real && (sample as real).Floor == sample
  {
    Cancel(sample as real, fps_d);
  }

  lemma Cancel(x: real, y: real)
    requires y > 0.0
    ensures x * y / y == x && y / y == 1.0
  {
  }
}
