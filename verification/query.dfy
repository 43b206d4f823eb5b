/**
  HTTP query parameters (parse_http_query_params and parse_param of src/ics_handler.c): the
  query string is cut up in place, and each key=value pair sets a field of the request.
  */
module Query {
  import opened Wrappers
  import opened Url
  import Conversions

  datatype Rendering = FmtPng | FmtJpg | FmtPpm | FmtRaw | OutHtml | OutJson | OutCsv | OutPlain

  datatype Pixels = Yuv420p | Yuv440p | Yuyv422 | Uyvy422 | Rgb24 | Bgr24 | Rgba | Argb | Bgra

  /** ics_request_args, and what the parser notes besides: `hasFrame` and `fn` are the bits of doit. */
  datatype Request = Request(frame: int, hasFrame: bool, outWidth: int, outHeight: int, fn: Option<string>, flat: bool,
                             render: Rendering, decode: Pixels, misc: int)

  /** The defaults that parse_http_query sets. */
  const DEFAULTS := Request(0, false, -1, -1, None, false, FmtPng, Rgb24, 0)

  // ---------------------------------------------------------------------------------
  // Cutting up

  predicate IsCut(c: char)
  {
    c == '&' || c == '?'
  }

  /** Where the first such character is, or the length */
  function FirstCut(q: string): (i: nat)
    ensures i <= |q| && (forall j :: 0 <= j < i ==> !IsCut(q[j])) && (i < |q| ==> IsCut(q[i]))
  {
    if q == "" || IsCut(q[0]) then 0 else 1 + FirstCut(q[1..])
  }

  function FirstEq(q: string): (i: nat)
    ensures i <= |q| && (forall j :: 0 <= j < i ==> q[j] != '=') && (i < |q| ==> q[i] == '=')
  {
    if q == "" || q[0] == '=' then 0 else 1 + FirstEq(q[1..])
  }

  type Pair = (string, string)

  /** key=value, neither of them empty; anything else is ignored */
  function ParamOf(piece: string): seq<Pair>
  {
    var i := FirstEq(piece);
    if i < |piece| && i + 1 < |piece| && i > 0 then [(piece[..i], piece[i + 1..])] else []
  }

  function Params(q: string): seq<Pair>
  {
    var i := FirstCut(q);
    if i < |q| then ParamOf(q[..i]) + Params(q[i + 1..]) else ParamOf(q)
  }

  /** The printer: key=value&key=value... */
  function Join(ps: seq<Pair>): string
  {
    if ps == [] then ""
    else if |ps| == 1 then ps[0].0 + "=" + ps[0].1
    else ps[0].0 + "=" + ps[0].1 + "&" + Join(ps[1..])
  }

  predicate Joinable(p: Pair)
  {
    && p.0 != "" && p.1 != ""
    && (forall i :: 0 <= i < |p.0| ==> p.0[i] != '=' && !IsCut(p.0[i]))
    && (forall i :: 0 <= i < |p.1| ==> !IsCut(p.1[i]))
  }

  lemma ParamRoundTrip(p: Pair)
    requires Joinable(p)
    ensures ParamOf(p.0 + "=" + p.1) == [p]
  {
    var s := p.0 + "=" + p.1;
    assert s[|p.0|] == '=' && s[..|p.0|] == p.0 && s[|p.0| + 1..] == p.1;
    assert forall j :: 0 <= j < |p.0| ==> s[j] == p.0[j];
    assert FirstEq(s) == |p.0|;
  }

  /** What was joined comes apart again, in the same order. */
  lemma {:induction false} JoinRoundTrip(ps: seq<Pair>)
    requires forall i :: 0 <= i < |ps| ==> Joinable(ps[i])
    ensures Params(Join(ps)) == ps
  {
    if ps != [] {
      var s := ps[0].0 + "=" + ps[0].1;
      ParamRoundTrip(ps[0]);
      assert forall j :: 0 <= j < |s| ==> !IsCut(s[j]);
      if |ps| == 1 {
        assert FirstCut(s) == |s|;
      } else {
        JoinRoundTrip(ps[1..]);
        assert Join(ps) == s + "&" + Join(ps[1..]);
        ParamsOfTwo(s, Join(ps[1..]));
        assert ps == [ps[0]] + ps[1..];
      }
    }
  }

  lemma ParamsOfTwo(s: string, rest: string)
    requires forall j :: 0 <= j < |s| ==> !IsCut(s[j])
    ensures Params(s + "&" + rest) == ParamOf(s) + Params(rest)
  {
    var q := s + "&" + rest;
    assert q[|s|] == '&' && q[..|s|] == s && q[|s| + 1..] == rest;
    assert forall j :: 0 <= j < |s| ==> q[j] == s[j];
    assert FirstCut(q) == |s|;
  }

  /** Escaped values survive the journey through a query. */
  lemma EscapedJoinRoundTrip(ps: seq<Pair>)
    requires forall i :: 0 <= i < |ps| ==> Octets(ps[i].1) && ps[i].1 != "" && Joinable((ps[i].0, "x"))
    ensures var qs := seq(|ps|, i requires 0 <= i < |ps| => (ps[i].0, Escape(ps[i].1)));
      Params(Join(qs)) == qs && forall i :: 0 <= i < |ps| ==> Unescape(qs[i].1) == ps[i].1
  {
    var qs := seq(|ps|, i requires 0 <= i < |ps| => (ps[i].0, Escape(ps[i].1)));
    forall i | 0 <= i < |qs| ensures Joinable(qs[i]) && Unescape(qs[i].1) == ps[i].1 {
      EscapeIsClean(ps[i].1);
      RoundTrip(ps[i].1);
      assert Joinable((ps[i].0, "x"));
    }
    JoinRoundTrip(qs);
  }

  // ---------------------------------------------------------------------------------
  // What a parameter does

  predicate IsSpace(c: char)
  {
    c == ' ' || '\t' <= c <= '\r'
  }

  predicate IsDigit(c: char)
  {
    '0' <= c <= '9'
  }

  function DigitsValue(s: string, n: nat): nat
  {
    if s == "" || !IsDigit(s[0]) then n else DigitsValue(s[1..], 10 * n + (s[0] - '0') as nat)
  }

  /** atoi */
  function Atoi(s: string): int
  {
    if s == "" then 0
    else if IsSpace(s[0]) then Atoi(s[1..])
    else if s[0] == '-' then 0 - DigitsValue(s[1..], 0)
    else if s[0] == '+' then DigitsValue(s[1..], 0)
    else DigitsValue(s, 0)
  }

  lemma {:induction false} DigitsValueAppend(s: string, c: char, n: nat)
    requires forall i :: 0 <= i < |s| ==> IsDigit(s[i])
    requires IsDigit(c)
    ensures DigitsValue(s + [c], n) == 10 * DigitsValue(s, n) + (c - '0') as nat
  {
    if s == "" {
      assert (s + [c])[1..] == "";
    } else {
      DigitsValueAppend(s[1..], c, 10 * n + (s[0] - '0') as nat);
      assert (s + [c])[1..] == s[1..] + [c];
    }
  }

  lemma {:induction false} DecimalValue(n: nat)
    ensures var d := Conversions.Digits(n, 'd');
      DigitsValue(d, 0) == n && forall i :: 0 <= i < |d| ==> IsDigit(d[i])
    decreases n
  {
    if n >= 10 {
      Conversions.Divided(n, 10);
      DecimalValue(n / 10);
      DecimalDigit(n % 10);
      DigitsValueAppend(Conversions.Digits(n / 10, 'd'), Conversions.DigitChar(n % 10, 'd'), 0);
      assert Conversions.Digits(n, 'd') == Conversions.Digits(n / 10, 'd') + [Conversions.DigitChar(n % 10, 'd')];
    } else {
      DecimalDigit(n);
      assert DigitsValue([Conversions.DigitChar(n, 'd')], 0) == n;
    }
  }

  lemma DecimalDigit(d: nat)
    requires d < 10
    ensures var c := Conversions.DigitChar(d, 'd'); IsDigit(c) && (c - '0') as nat == d
  {
  }

  /** atoi reads what %d prints. */
  lemma AtoiReadsDecimal(n: nat)
    ensures Atoi(Conversions.Digits(n, 'd')) == n
    ensures Atoi("-" + Conversions.Digits(n, 'd')) == 0 - n
  {
    DecimalValue(n);
    var d := Conversions.Digits(n, 'd');
    assert !IsSpace(d[0]);
    assert ("-" + d)[1..] == d;
  }

  /** It skips blanks, takes a sign, and stops at the first character that is no digit. */
  lemma {:induction false} AtoiReads(blanks: string, n: nat, tail: string)
    requires forall i :: 0 <= i < |blanks| ==> blanks[i] == ' ' || 9 <= blanks[i] as int <= 13
    requires tail == "" || tail[0] as int < 48 || tail[0] as int > 57
    ensures var d := Conversions.Digits(n, 'd');
      && Atoi(blanks + (d + tail)) == n
      && Atoi(blanks + ("+" + d + tail)) == n
      && Atoi(blanks + ("-" + d + tail)) == 0 - n
  {
    var d := Conversions.Digits(n, 'd');
    DecimalValue(n);
    DigitsStop(d, 0, tail);
    assert !IsSpace(d[0]) && (d + tail)[0] == d[0];
    assert ("+" + d + tail)[1..] == d + tail && ("-" + d + tail)[1..] == d + tail;
    BlanksSkipped(blanks, d + tail);
    BlanksSkipped(blanks, "+" + d + tail);
    BlanksSkipped(blanks, "-" + d + tail);
  }

  lemma {:induction false} BlanksSkipped(blanks: string, s: string)
    requires forall i :: 0 <= i < |blanks| ==> blanks[i] == ' ' || 9 <= blanks[i] as int <= 13
    ensures Atoi(blanks + s) == Atoi(s)
  {
    if blanks == "" {
      assert blanks + s == s;
    } else {
      assert (blanks + s)[1..] == blanks[1..] + s;
      BlanksSkipped(blanks[1..], s);
    }
  }

  lemma {:induction false} DigitsStop(s: string, n: nat, tail: string)
    requires forall i :: 0 <= i < |s| ==> IsDigit(s[i])
    requires tail == "" || !IsDigit(tail[0])
    ensures DigitsValue(s + tail, n) == DigitsValue(s, n)
  {
    if s == "" {
      assert s + tail == tail;
    } else {
      assert (s + tail)[1..] == s[1..] + tail;
      DigitsStop(s[1..], 10 * n + (s[0] - '0') as nat, tail);
    }
  }

  function Formatted(a: Request, v: string): Request
  {
    if "jpg" <= v then a.(render := FmtJpg, misc := Atoi(v[3..]))
    else if "jpeg" <= v then a.(render := FmtJpg, misc := Atoi(v[4..]))
    else match v
      case "png" => a.(render := FmtPng)
      case "ppm" => a.(render := FmtPpm)
      case "yuv" => a.(render := FmtRaw, decode := Yuv420p)
      case "yuv420" => a.(render := FmtRaw, decode := Yuv420p)
      case "yuv440" => a.(render := FmtRaw, decode := Yuv440p)
      case "yuv422" => a.(render := FmtRaw, decode := Yuyv422)
      case "uyv422" => a.(render := FmtRaw, decode := Uyvy422)
      case "rgb" => a.(render := FmtRaw, decode := Rgb24)
      case "bgr" => a.(render := FmtRaw, decode := Bgr24)
      case "rgba" => a.(render := FmtRaw, decode := Rgba)
      case "argb" => a.(render := FmtRaw, decode := Argb)
      case "bgra" => a.(render := FmtRaw, decode := Bgra)
      case "html" => a.(render := OutHtml)
      case "xhtml" => a.(render := OutHtml)
      case "json" => a.(render := OutJson)
      case "csv" => a.(render := OutCsv)
      case "plain" => a.(render := OutPlain)
      case _ => a
  }

  /** The names that ask for raw pixels, and those that ask for another rendering. */
  const RAW: map<string, Pixels> := map[
    "yuv" := Yuv420p, "yuv420" := Yuv420p, "yuv440" := Yuv440p, "yuv422" := Yuyv422, "uyv422" := Uyvy422,
    "rgb" := Rgb24, "bgr" := Bgr24, "rgba" := Rgba, "argb" := Argb, "bgra" := Bgra]

  const RENDERED: map<string, Rendering> := map[
    "png" := FmtPng, "ppm" := FmtPpm, "html" := OutHtml, "xhtml" := OutHtml, "json" := OutJson, "csv" := OutCsv, "plain" := OutPlain]

  predicate IsJpeg(v: string)
  {
    |v| >= 3 && v[0] == 'j' && v[1] == 'p' && (v[2] == 'g' || (|v| >= 4 && v[2] == 'e' && v[3] == 'g'))
  }

  /** What format= sets, name by name; other fields and other names change nothing. */
  lemma FormatSets(a: Request, v: string)
    ensures v in RAW ==> Applied(a, ("format", v)) == a.(render := FmtRaw, decode := RAW[v])
    ensures v in RENDERED ==> Applied(a, ("format", v)) == a.(render := RENDERED[v])
    ensures v !in RAW && v !in RENDERED && !IsJpeg(v) ==> Applied(a, ("format", v)) == a
    ensures IsJpeg(v) ==> exists q :: Applied(a, ("format", v)) == a.(render := FmtJpg, misc := q)
  {
    JpegPrefix(v);
    if "jpg" <= v {
      assert Formatted(a, v) == a.(render := FmtJpg, misc := Atoi(v[3..]));
    } else if "jpeg" <= v {
      assert Formatted(a, v) == a.(render := FmtJpg, misc := Atoi(v[4..]));
    }
  }

  lemma JpegPrefix(v: string)
    ensures IsJpeg(v) <==> "jpg" <= v || "jpeg" <= v
    ensures "jpg" <= v ==> !("jpeg" <= v)
    ensures v in RAW || v in RENDERED ==> !IsJpeg(v)
  {
    if "jpg" <= v { assert v[..3] == "jpg"; assert v[2] == 'g'; }
    if "jpeg" <= v { assert v[..4] == "jpeg"; assert v[2] == 'e' && v[3] == 'g'; }
    if IsJpeg(v) {
      if v[2] == 'g' { assert v[..3] == "jpg"; } else { assert v[..4] == "jpeg"; }
    }
  }

  /** A number after jpg or jpeg is the quality. */
  lemma JpegQuality(a: Request, n: nat)
    ensures Applied(a, ("format", "jpg" + Conversions.Digits(n, 'd'))) == a.(render := FmtJpg, misc := n)
    ensures Applied(a, ("format", "jpeg" + Conversions.Digits(n, 'd'))) == a.(render := FmtJpg, misc := n)
  {
    var d := Conversions.Digits(n, 'd');
    AtoiReadsDecimal(n);
    var v, w := "jpg" + d, "jpeg" + d;
    assert v[3..] == d && w[4..] == d && v[..3] == "jpg" && w[..4] == "jpeg";
    JpegPrefix(w);
  }

  /** What C takes for the string: it ends at the first NUL. */
  function CString(s: string): (r: string)
    ensures r <= s && '\0' !in r && (r == s <==> '\0' !in s)
  {
    if s == "" || s[0] == '\0' then "" else [s[0]] + CString(s[1..])
  }

  function Applied(a: Request, p: Pair): Request
  {
    match p.0
    case "frame" => a.(frame := Atoi(p.1), hasFrame := true)
    case "w" => a.(outWidth := Atoi(p.1))
    case "h" => a.(outHeight := Atoi(p.1))
    case "file" => a.(fn := Some(CString(Unescape(p.1))))
    case "flatindex" => a.(flat := true)
    case "format" => Formatted(a, p.1)
    case _ => a
  }

  function AllApplied(a: Request, ps: seq<Pair>): Request
    decreases |ps|
  {
    if ps == [] then a else AllApplied(Applied(a, ps[0]), ps[1..])
  }

  lemma {:induction false} AppliedInTurn(a: Request, ps: seq<Pair>, qs: seq<Pair>)
    ensures AllApplied(a, ps + qs) == AllApplied(AllApplied(a, ps), qs)
    decreases |ps|
  {
    if ps == [] {
      assert ps + qs == qs;
    } else {
      AppliedInTurn(Applied(a, ps[0]), ps[1..], qs);
      assert (ps + qs)[1..] == ps[1..] + qs;
    }
  }

  /** The query for a frame of a file in a size. */
  function FrameQuery(file: string, frame: nat, w: nat, h: nat): string
    requires Octets(file)
  {
    Join([("frame", Conversions.Digits(frame, 'd')), ("w", Conversions.Digits(w, 'd')), ("h", Conversions.Digits(h, 'd')), ("file", Escape(file))])
  }

  lemma DecimalIsJoinable(key: string, n: nat)
    requires Joinable((key, "x"))
    ensures Joinable((key, Conversions.Digits(n, 'd')))
  {
    DecimalValue(n);
    assert (key, "x").0 == key;
  }

  lemma FrameQueryParams(file: string, frame: nat, w: nat, h: nat)
    requires Octets(file) && file != ""
    ensures Params(FrameQuery(file, frame, w, h)) ==
      [("frame", Conversions.Digits(frame, 'd')), ("w", Conversions.Digits(w, 'd')), ("h", Conversions.Digits(h, 'd')), ("file", Escape(file))]
  {
    DecimalIsJoinable("frame", frame);
    DecimalIsJoinable("w", w);
    DecimalIsJoinable("h", h);
    EscapeIsClean(file);
    JoinRoundTrip([("frame", Conversions.Digits(frame, 'd')), ("w", Conversions.Digits(w, 'd')), ("h", Conversions.Digits(h, 'd')), ("file", Escape(file))]);
  }

  /** Whatever the file is called, the server gets the request that the client wrote; the name itself exactly if there is no NUL in it. */
  lemma FrameQueryIsUnderstood(file: string, frame: nat, w: nat, h: nat)
    requires Octets(file) && file != ""
    ensures AllApplied(DEFAULTS, Params(FrameQuery(file, frame, w, h)))
      == DEFAULTS.(frame := frame, hasFrame := true, outWidth := w, outHeight := h, fn := Some(CString(file)))
    ensures AllApplied(DEFAULTS, Params(FrameQuery(file, frame, w, h))).fn == Some(file) <==> '\0' !in file
  {
    FrameQueryParams(file, frame, w, h);
    var p1, p2, p3 := ("frame", Conversions.Digits(frame, 'd')), ("w", Conversions.Digits(w, 'd')), ("h", Conversions.Digits(h, 'd'));
    var p4 := ("file", Escape(file));
    RoundTrip(file);
    AtoiReadsDecimal(frame);
    AtoiReadsDecimal(w);
    AtoiReadsDecimal(h);
    FourApplied(DEFAULTS, p1, p2, p3, p4);
  }

  lemma FourApplied(a: Request, p1: Pair, p2: Pair, p3: Pair, p4: Pair)
    ensures AllApplied(a, [p1, p2, p3, p4]) == Applied(Applied(Applied(Applied(a, p1), p2), p3), p4)
  {
    var a1 := Applied(a, p1);
    var a2 := Applied(a1, p2);
    assert [p1, p2, p3, p4][1..] == [p2, p3, p4];
    assert [p2, p3, p4][1..] == [p3, p4];
    assert [p3, p4][1..] == [p4];
    assert AllApplied(a, [p1, p2, p3, p4]) == AllApplied(a1, [p2, p3, p4]);
    assert AllApplied(a1, [p2, p3, p4]) == AllApplied(a2, [p3, p4]);
    assert AllApplied(a2, [p3, p4]) == AllApplied(Applied(a2, p3), [p4]);
  }

  // ---------------------------------------------------------------------------------
  // The methods

  /** A NUL-terminated string in a buffer: it starts at s and its NUL is at e. */
  predicate IsString(b: seq<char>, s: nat, e: nat)
  {
    s <= e < |b| && b[e] == '\0' && forall j :: s <= j < e ==> b[j] != '\0'
  }

  /** struct queryparserstate */
  class Parser {
    var a: Request

    constructor ()
      ensures a == DEFAULTS
    {
      a := DEFAULTS;
    }

    /** parse_param: cut at the first = and set what the key stands for */
    method ParseParam(buf: array<char>, s: nat, e: nat)
      requires IsString(buf[..], s, e)
      modifies this, buf
      ensures a == AllApplied(old(a), ParamOf(old(buf[s..e])))
      ensures forall j :: 0 <= j < buf.Length && !(s <= j < e) ==> buf[j] == old(buf[j])
    {
      ghost var piece := buf[s..e];
      var sep := s;
      while buf[sep] != '=' && buf[sep] != '\0'
        invariant s <= sep <= e && forall j :: s <= j < sep ==> buf[j] != '='
        decreases e - sep
      {
        sep := sep + 1;
      }
      EqAt(piece, sep - s);
      if buf[sep] == '\0' {
        return;
      }
      buf[sep] := '\0';
      if sep + 1 == e || sep == s {
        return;
      }
      var key, val := buf[s..sep], buf[sep + 1..e];
      assert key == piece[..sep - s] && val == piece[sep + 1 - s..];
      AppliedOnce(a, (key, val));
      a := Applied(a, (key, val));
    }

    /** One round of the loop. */
    method ParseFirst(buf: array<char>, s: nat, t: nat, n: nat, ghost r: string, ghost whole: Request) returns (ghost r': string)
      requires s <= t < n && IsString(buf[..], s, n) && buf[s..n] == r && t == s + FirstCut(r)
      requires Remaining(r, whole)
      modifies this, buf
      ensures IsString(buf[..], t + 1, n) && buf[t + 1..n] == r'
      ensures Remaining(r', whole)
    {
      ghost var a0 := a;
      r' := CutFirst(buf, s, t, n, r);
      assert |r| == n - s;
      FirstApplied(a0, r, t - s, a, whole, r');
    }

    /** End the string at t, and parse what is before it. */
    method CutFirst(buf: array<char>, s: nat, t: nat, n: nat, ghost r: string) returns (ghost r': string)
      requires s <= t < n && IsString(buf[..], s, n) && buf[s..n] == r
      modifies this, buf
      ensures a == AllApplied(old(a), ParamOf(r[..t - s])) && r' == r[t - s + 1..]
      ensures IsString(buf[..], t + 1, n) && buf[t + 1..n] == r'
    {
      r' := r[t - s + 1..];
      forall j | s <= j < n ensures buf[j] == r[j - s] {
        assert buf[s..n][j - s] == r[j - s];
      }
      buf[t] := '\0';
      assert buf[s..t] == r[..t - s];
      ParseParam(buf, s, t);
    }

    /** What is left after the last cut. */
    method ParseLast(buf: array<char>, s: nat, n: nat, ghost r: string, ghost whole: Request)
      requires IsString(buf[..], s, n) && buf[s..n] == r && FirstCut(r) == |r| && Remaining(r, whole)
      modifies this, buf
      ensures a == whole
    {
      ParseParam(buf, s, n);
    }

    /** parse_http_query_params */
    method ParseQueryParams(buf: array<char>, n: nat)
      requires IsString(buf[..], 0, n)
      modifies this, buf
      ensures a == AllApplied(old(a), Params(old(buf[..n])))
    {
      ghost var r := buf[..n];
      ghost var whole := AllApplied(a, Params(r));
      var s := 0;
      var t := Strpbrk(buf, s, n);
      while t < n
        invariant s <= t <= n && IsString(buf[..], s, n) && buf[s..n] == r
        invariant t == s + FirstCut(r)
        invariant Remaining(r, whole)
        decreases n - s
      {
        r := ParseFirst(buf, s, t, n, r, whole);
        s := t + 1;
        t := Strpbrk(buf, s, n);
      }
      ParseLast(buf, s, n, r, whole);
    }

    /** What is still to be parsed will give the result. */
    ghost predicate Remaining(r: string, whole: Request)
      reads this
    {
      AllApplied(a, Params(r)) == whole
    }
  }

  lemma FirstApplied(a: Request, r: string, i: nat, a': Request, whole: Request, r': string)
    requires i == FirstCut(r) < |r| && AllApplied(a, Params(r)) == whole
    requires a' == AllApplied(a, ParamOf(r[..i])) && r' == r[i + 1..]
    ensures AllApplied(a', Params(r')) == whole
  {
    ParamsFirst(r, i, Params(r'));
    AppliedInTurn(a, ParamOf(r[..i]), Params(r'));
  }

  lemma ParamsFirst(r: string, i: nat, rest: seq<Pair>)
    requires i == FirstCut(r) < |r| && rest == Params(r[i + 1..])
    ensures Params(r) == ParamOf(r[..i]) + rest
  {
  }

  /** The next & or ?, or the end of the string */
  method Strpbrk(buf: array<char>, s: nat, n: nat) returns (t: nat)
    requires IsString(buf[..], s, n)
    ensures t == s + FirstCut(buf[s..n])
  {
    t := s;
    while t < n && !IsCut(buf[t])
      invariant s <= t <= n && forall j :: s <= j < t ==> !IsCut(buf[j])
    {
      t := t + 1;
    }
    CutAt(buf[s..n], t - s);
  }

  lemma {:induction false} CutAt(q: string, i: nat)
    requires i <= |q| && (forall j :: 0 <= j < i ==> !IsCut(q[j])) && (i < |q| ==> IsCut(q[i]))
    ensures FirstCut(q) == i
  {
    if i > 0 {
      CutAt(q[1..], i - 1);
    }
  }

  lemma {:induction false} EqAt(q: string, i: nat)
    requires i <= |q| && (forall j :: 0 <= j < i ==> q[j] != '=') && (i < |q| ==> q[i] == '=')
    ensures FirstEq(q) == i
  {
    if i > 0 {
      EqAt(q[1..], i - 1);
    }
  }

  lemma AppliedOnce(a: Request, p: Pair)
    ensures AllApplied(a, [p]) == Applied(a, p)
  {
  }
}
