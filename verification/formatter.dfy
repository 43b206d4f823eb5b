/**
  portable_vsnprintf (libharvid/snprintf.c): the format interpreter that writes no more than
  `size` characters, against the unbounded `Format` that it truncates; and the grow-and-append
  macro rpprintf of libharvid/dlog.h.

  Characters are bytes.  Arguments beyond the last one, or of another kind than the conversion
  wants, are undefined in C; here they read as 0 or as a null pointer.
  */
module Formatter {
  import opened Sequences
  import opened Wrappers
  import opened Conversions

  // ---------------------------------------------------------------------------------
  // Format strings and arguments

  /** *p: a string ends at its length, or at a NUL before that. */
  function At(fmt: string, i: nat): char
  {
    if i < |fmt| then fmt[i] else '\0'
  }

  function Rest(args: seq<Arg>): seq<Arg>
  {
    if args == [] then [] else args[1..]
  }

  /** va_arg(ap, int) and its unsigned and long relatives, before they are cut to their width */
  function IntOf(args: seq<Arg>): int
  {
    if args != [] && args[0].IntArg? then args[0].i else 0
  }

  function StrOf(args: seq<Arg>): Option<string>
  {
    if args != [] && args[0].StrArg? then args[0].s else None
  }

  function NumOf(s: Spec, args: seq<Arg>): Arg
  {
    if s.conv != 'p' then IntArg(IntOf(args))
    else if args != [] && args[0].PtrArg? then args[0] else PtrArg(true, "")
  }

  predicate IsFlag(c: char)
  {
    c == '0' || c == '-' || c == '+' || c == ' ' || c == '#' || c == '\''
  }

  predicate IsDigit(c: char)
  {
    '0' <= c <= '9'
  }

  // ---------------------------------------------------------------------------------
  // Parsing a conversion specification

  /** How far parsing has come: what was read, the position, and the arguments left. */
  datatype Scan = Scan(s: Spec, p: nat, args: seq<Arg>)

  const NO_FLAGS := Spec(false, false, false, true, false, 0, false, 0, Plain, '\0')

  function AddFlag(s: Spec, c: char): Spec
  {
    match c
    case '0' => s.(zero := true)
    case '-' => s.(left := true)
    case '+' => s.(sign := true, space := false)
    case ' ' => s.(sign := true)
    case '#' => s.(alt := true)
    case _ => s
  }

  function Flags(fmt: string, q: Scan): (r: Scan)
    ensures r.p >= q.p
    decreases |fmt| - q.p
  {
    if q.p < |fmt| && IsFlag(fmt[q.p]) then Flags(fmt, q.(s := AddFlag(q.s, fmt[q.p]), p := q.p + 1)) else q
  }

  /** Digits read into an unsigned int, and the position after them. */
  function Number(fmt: string, p: nat, n: nat): (r: (nat, nat))
    ensures r.1 >= p
    decreases |fmt| - p
  {
    if p < |fmt| && IsDigit(fmt[p]) then Number(fmt, p + 1, (10 * n + (fmt[p] - '0') as nat) % M32) else (n, p)
  }

  function Width(fmt: string, q: Scan): (r: Scan)
    ensures r.p >= q.p
  {
    if At(fmt, q.p) == '*' then
      var j := Wrap(IntOf(q.args), M32);
      Scan(q.s.(width := if j >= 0 then j else -j, left := q.s.left || j < 0), q.p + 1, Rest(q.args))
    else
      var r := Number(fmt, q.p, 0);
      q.(s := q.s.(width := r.0), p := r.1)
  }

  function Precision(fmt: string, q: Scan): (r: Scan)
    ensures r.p >= q.p
  {
    if At(fmt, q.p) != '.' then q
    else if At(fmt, q.p + 1) == '*' then
      var j := Wrap(IntOf(q.args), M32);
      Scan(q.s.(given := j >= 0, prec := if j >= 0 then j else 0), q.p + 2, Rest(q.args))
    else
      var r := Number(fmt, q.p + 1, 0);
      q.(s := q.s.(given := true, prec := r.0), p := r.1)
  }

  function LengthModifier(fmt: string, q: Scan): (r: Scan)
    ensures r.p >= q.p
  {
    match At(fmt, q.p)
    case 'h' => q.(s := q.s.(mod := Short), p := q.p + 1)
    case 'l' =>
      if At(fmt, q.p + 1) == 'l' then q.(s := q.s.(mod := LongLong), p := q.p + 2)
      else q.(s := q.s.(mod := Long), p := q.p + 1)
    case _ => q
  }

  /** The conversion character, with its synonyms. */
  function Conversion(fmt: string, q: Scan): Scan
  {
    match At(fmt, q.p)
    case 'i' => q.(s := q.s.(conv := 'd'))
    case 'D' => q.(s := q.s.(conv := 'd', mod := Long))
    case 'U' => q.(s := q.s.(conv := 'u', mod := Long))
    case 'O' => q.(s := q.s.(conv := 'o', mod := Long))
    case c => q.(s := q.s.(conv := c))
  }

  /** Everything from after the % up to the conversion character, where the position stays. */
  function Parse(fmt: string, p: nat, args: seq<Arg>): (r: Scan)
    ensures r.p >= p
  {
    Conversion(fmt, LengthModifier(fmt, Precision(fmt, Width(fmt, Flags(fmt, Scan(NO_FLAGS, p, args))))))
  }

  // ---------------------------------------------------------------------------------
  // What a conversion yields

  function Strlen(s: string): (n: nat)
    ensures n <= |s| && (forall i :: 0 <= i < n ==> s[i] != '\0') && (n < |s| ==> s[n] == '\0')
  {
    if s == "" || s[0] == '\0' then 0 else 1 + Strlen(s[1..])
  }

  /** strlen, or memchr up to the precision */
  function Clipped(s: Spec, t: string): string
  {
    var n := Strlen(t);
    if s.given && s.prec < n then t[..s.prec] else t[..n]
  }

  function TextPiece(s: Spec, text: string): Piece
  {
    Piece(text, 0, 0, false, s.left, s.width)
  }

  /** The piece that is emitted. */
  function Convert(s: Spec, args: seq<Arg>): (p: Piece)
    ensures p.split <= |p.text|
  {
    match s.conv
    case '%' => TextPiece(s, "%")
    case 'c' => TextPiece(s, [(IntOf(args) % 256) as char])
    case 's' => TextPiece(s, if StrOf(args).None? then "" else Clipped(s, StrOf(args).value))
    case c =>
      if IsNumber(c) || c == 'p' then NumericPiece(if c == 'p' then s.(mod := Plain) else s, NumOf(s, args))
      else Piece(if c == '\0' then "" else [c], 0, 0, false, true, 0)
  }

  function ArgsAfter(s: Spec, args: seq<Arg>): seq<Arg>
  {
    if s.conv == 'c' || s.conv == 's' || s.conv == 'p' || IsNumber(s.conv) then Rest(args) else args
  }

  /** *p++ unless at the end */
  function Past(fmt: string, p: nat): nat
  {
    if At(fmt, p) == '\0' then p else p + 1
  }

  /** The whole text, one character or conversion after the other. */
  function Format(fmt: string, p: nat, args: seq<Arg>): string
    decreases |fmt| - p
  {
    if At(fmt, p) == '\0' then ""
    else if fmt[p] != '%' then [fmt[p]] + Format(fmt, p + 1, args)
    else
      var q := Parse(fmt, p + 1, args);
      Output(Convert(q.s, q.args)) + Format(fmt, Past(fmt, q.p), ArgsAfter(q.s, q.args))
  }

  /** A stretch without conversions is copied as it is. */
  lemma {:induction false} LiteralRun(fmt: string, p: nat, e: nat, args: seq<Arg>)
    requires p <= e <= |fmt| && forall i :: p <= i < e ==> fmt[i] != '%' && fmt[i] != '\0'
    ensures Format(fmt, p, args) == fmt[p..e] + Format(fmt, e, args)
    decreases e - p
  {
    if p < e {
      FormatChar(fmt, p, args);
      LiteralRun(fmt, p + 1, e, args);
      Reassociate([fmt[p]], fmt[p + 1..e], Format(fmt, e, args));
      assert fmt[p..e] == [fmt[p]] + fmt[p + 1..e];
    } else {
      Reassociate(fmt[p..e], "", Format(fmt, e, args));
    }
  }

  lemma FormatChar(fmt: string, p: nat, args: seq<Arg>)
    requires p < |fmt| && fmt[p] != '%' && fmt[p] != '\0'
    ensures Format(fmt, p, args) == [fmt[p]] + Format(fmt, p + 1, args)
  {
  }

  /** A number in a format string comes out as ISO C99 says, exactly if h is harmless or its harm does not show. */
  lemma NumberConvertsIff(s: Spec, args: seq<Arg>)
    requires IsNumber(s.conv)
    ensures Output(Convert(s, args)) == C99(s, Printed(s, IntOf(args))) <==>
      ShortIsHarmless(s, IntOf(args)) || ShortIsHidden(s, IntOf(args))
  {
    NumberIsConverted(s, args);
    ConversionLayoutIff(s, IntOf(args));
  }

  lemma NumberIsConverted(s: Spec, args: seq<Arg>)
    requires IsNumber(s.conv)
    ensures Convert(s, args) == NumericPiece(s, IntArg(IntOf(args)))
  {
  }

  /** Text is cut to the precision and filled with blanks to the width, on the left unless - says otherwise. */
  lemma TextLayout(s: Spec, text: string)
    ensures var out := Output(TextPiece(s, text));
      && |out| == (if s.width > |text| then s.width else |text|)
      && (if s.left then text <= out && forall i :: |text| <= i < |out| ==> out[i] == ' '
          else out[|out| - |text|..] == text && forall i :: 0 <= i < |out| - |text| ==> out[i] == ' ')
  {
    var fill := Monus(s.width, |text|);
    OutputParts(TextPiece(s, text), if s.left then "" else Rep(' ', fill), text, if s.left then Rep(' ', fill) else "");
  }

  /** No character of the argument beyond its end or beyond the precision is looked at. */
  lemma ClippedIsPrefix(s: Spec, t: string, rest: string)
    requires (s.given && s.prec <= Strlen(t)) || Strlen(t) < |t|
    ensures Clipped(s, t + rest) == Clipped(s, t)
  {
    StrlenOf(t, rest);
    var k := if s.given && s.prec < Strlen(t) then s.prec else Strlen(t);
    PrefixOfSum(t, rest, k);
  }

  lemma PrefixOfSum(t: string, rest: string, k: nat)
    requires k <= |t|
    ensures (t + rest)[..k] == t[..k]
  {
  }

  lemma {:induction false} StrlenOf(t: string, rest: string)
    ensures Strlen(t + rest) == if Strlen(t) < |t| then Strlen(t) else |t| + Strlen(rest)
  {
    if t != "" && t[0] != '\0' {
      StrlenOf(t[1..], rest);
      assert (t + rest)[1..] == t[1..] + rest;
    } else if t == "" {
      assert t + rest == rest;
    }
  }

  // ---------------------------------------------------------------------------------
  // The parser, with its loops

  method ReadFlags(fmt: string, p: nat, ghost args: seq<Arg>) returns (s: Spec, p': nat)
    ensures Scan(s, p', args) == Flags(fmt, Scan(NO_FLAGS, p, args))
  {
    s, p' := NO_FLAGS, p;
    while IsFlag(At(fmt, p'))
      invariant Flags(fmt, Scan(s, p', args)) == Flags(fmt, Scan(NO_FLAGS, p, args))
      decreases |fmt| - p'
    {
      match fmt[p'] {
        case '0' => s := s.(zero := true);
        case '-' => s := s.(left := true);
        case '+' => s := s.(sign := true, space := false);
        case ' ' => s := s.(sign := true);
        case '#' => s := s.(alt := true);
        case _ =>
      }
      p' := p' + 1;
    }
  }

  method ReadNumber(fmt: string, p: nat) returns (n: nat, p': nat)
    ensures (n, p') == Number(fmt, p, 0)
  {
    n, p' := 0, p;
    while IsDigit(At(fmt, p'))
      invariant Number(fmt, p', n) == Number(fmt, p, 0)
      decreases |fmt| - p'
    {
      n := (10 * n + (fmt[p'] - '0') as nat) % M32;
      p' := p' + 1;
    }
  }

  method ReadSpec(fmt: string, p: nat, args: seq<Arg>) returns (q: Scan)
    ensures q == Parse(fmt, p, args)
  {
    var s, p' := ReadFlags(fmt, p, args);
    var rest := args;
    ghost var q1 := Scan(s, p', rest);
    if At(fmt, p') == '*' {
      p' := p' + 1;
      var j := Wrap(IntOf(rest), M32);
      rest := Rest(rest);
      if j >= 0 {
        s := s.(width := j);
      } else {
        s := s.(width := -j, left := true);
      }
    } else {
      var n;
      n, p' := ReadNumber(fmt, p');
      s := s.(width := n);
    }
    assert Scan(s, p', rest) == Width(fmt, q1);
    ghost var q2 := Scan(s, p', rest);
    if At(fmt, p') == '.' {
      p' := p' + 1;
      s := s.(given := true);
      if At(fmt, p') == '*' {
        p' := p' + 1;
        var j := Wrap(IntOf(rest), M32);
        rest := Rest(rest);
        if j >= 0 {
          s := s.(prec := j);
        } else {
          s := s.(given := false, prec := 0);
        }
      } else {
        var n;
        n, p' := ReadNumber(fmt, p');
        s := s.(prec := n);
      }
    }
    assert Scan(s, p', rest) == Precision(fmt, q2);
    q := Conversion(fmt, LengthModifier(fmt, Scan(s, p', rest)));
  }

  // ---------------------------------------------------------------------------------
  // Emitting

  /** Of everything emitted so far, what there is room for is in the buffer. */
  ghost predicate Holds(str: array<char>, base: nat, size: nat, out: string)
    requires base + size <= str.Length
    reads str
  {
    forall j :: base <= j < base + size && j < base + |out| ==> str[j] == out[j - base]
  }

  /** fast_memcpy of what there is room for */
  method Put(str: array<char>, base: nat, size: nat, len: nat, piece: string, ghost out: string) returns (len': nat)
    requires base + size <= str.Length && len == |out| && Holds(str, base, size, out)
    modifies str
    ensures len' == len + |piece| && Holds(str, base, size, out + piece)
    ensures forall j :: 0 <= j < base || base + size <= j < str.Length ==> str[j] == old(str[j])
  {
    if len < size {
      var avail := size - len;
      var n := if |piece| > avail then avail else |piece|;
      var d, k := base + len, 0;
      while k < n
        invariant 0 <= k <= n
        invariant forall j :: base <= j < d ==> str[j] == out[j - base]
        invariant forall j :: d <= j < d + k ==> str[j] == piece[j - d]
        invariant forall j :: 0 <= j < base || base + size <= j < str.Length ==> str[j] == old(str[j])
      {
        str[d + k] := piece[k];
        k := k + 1;
      }
    }
    len' := len + |piece|;
  }

  /** fast_memset of what there is room for */
  method Fill(str: array<char>, base: nat, size: nat, len: nat, c: char, count: nat, ghost out: string) returns (len': nat)
    requires base + size <= str.Length && len == |out| && Holds(str, base, size, out)
    modifies str
    ensures len' == len + count && Holds(str, base, size, out + Rep(c, count))
    ensures forall j :: 0 <= j < base || base + size <= j < str.Length ==> str[j] == old(str[j])
  {
    if len < size {
      var avail := size - len;
      var n := if count > avail then avail else count;
      var d, k := base + len, 0;
      while k < n
        invariant 0 <= k <= n
        invariant forall j :: base <= j < d ==> str[j] == out[j - base]
        invariant forall j :: d <= j < d + k ==> str[j] == c
        invariant forall j :: 0 <= j < base || base + size <= j < str.Length ==> str[j] == old(str[j])
      {
        str[d + k] := c;
        k := k + 1;
      }
    }
    len' := len + count;
  }

  /** Padding on one side. */
  method Pad(str: array<char>, base: nat, size: nat, len: nat, here: bool, c: char, p: Piece, ghost out: string) returns (len': nat)
    requires base + size <= str.Length && len == |out| && Holds(str, base, size, out)
    modifies str
    ensures var pad := if here then Rep(c, Monus(p.width, |p.text| + p.zeros)) else "";
      len' == len + |pad| && Holds(str, base, size, out + pad)
    ensures forall j :: 0 <= j < base || base + size <= j < str.Length ==> str[j] == old(str[j])
  {
    len' := len;
    if here {
      var n := p.width - (|p.text| + p.zeros);
      if n > 0 {
        len' := Fill(str, base, size, len, c, n, out);
      }
    }
  }

  /** The text, with the zeros after the sign or 0x. */
  method PutText(str: array<char>, base: nat, size: nat, len: nat, p: Piece, ghost out: string) returns (len': nat)
    requires base + size <= str.Length && len == |out| && Holds(str, base, size, out)
    requires p.split <= |p.text|
    modifies str
    ensures var text := p.text[..p.split] + Rep('0', p.zeros) + p.text[p.split..];
      len' == len + |text| && Holds(str, base, size, out + text)
    ensures forall j :: 0 <= j < base || base + size <= j < str.Length ==> str[j] == old(str[j])
  {
    if p.zeros == 0 {
      assert p.text[..p.split] + Rep('0', 0) + p.text[p.split..] == p.text;
      len' := Put(str, base, size, len, p.text, out);
    } else {
      len' := Put(str, base, size, len, p.text[..p.split], out);
      ghost var out1 := out + p.text[..p.split];
      len' := Fill(str, base, size, len', '0', p.zeros, out1);
      ghost var out2 := out1 + Rep('0', p.zeros);
      len' := Put(str, base, size, len', p.text[p.split..], out2);
      assert out2 + p.text[p.split..] == out + (p.text[..p.split] + Rep('0', p.zeros) + p.text[p.split..]);
    }
  }

  /** Left padding, sign or 0x, zeros, the text, right padding: five of the six places that truncate. */
  method Emit(str: array<char>, base: nat, size: nat, len: nat, p: Piece, ghost out: string) returns (len': nat)
    requires base + size <= str.Length && len == |out| && Holds(str, base, size, out)
    requires p.split <= |p.text|
    modifies str
    ensures len' == len + |Output(p)| && Holds(str, base, size, out + Output(p))
    ensures forall j :: 0 <= j < base || base + size <= j < str.Length ==> str[j] == old(str[j])
  {
    ghost var fill := Monus(p.width, |p.text| + p.zeros);
    var c := if p.zeroPad then '0' else ' ';
    ghost var left := if !p.left then Rep(c, fill) else "";
    ghost var text := p.text[..p.split] + Rep('0', p.zeros) + p.text[p.split..];
    ghost var right := if p.left then Rep(' ', fill) else "";
    len' := Pad(str, base, size, len, !p.left, c, p, out);
    len' := PutText(str, base, size, len', p, out + left);
    len' := Pad(str, base, size, len', p.left, ' ', p, out + left + text);
    assert out + left + text + right == out + (left + text + right);
    OutputParts(p, left, text, right);
  }

  lemma OutputParts(p: Piece, left: string, text: string, right: string)
    requires p.split <= |p.text|
    requires var fill := Monus(p.width, |p.text| + p.zeros);
      && left == (if !p.left then Rep(if p.zeroPad then '0' else ' ', fill) else "")
      && text == p.text[..p.split] + Rep('0', p.zeros) + p.text[p.split..]
      && right == if p.left then Rep(' ', fill) else ""
    ensures Output(p) == left + text + right
  {
  }

  // ---------------------------------------------------------------------------------
  // The interpreter

  /**
    Truncation refines unbounded formatting: the result is the full length whatever the size,
    the buffer holds as much of the text as fits and a NUL, and nothing outside is written.
    */
  method Vsnprintf(str: array<char>, base: nat, size: nat, fmt: string, args: seq<Arg>) returns (len: nat)
    requires base + size <= str.Length
    modifies str
    ensures len == |Format(fmt, 0, args)|
    ensures size > 0 ==>
      var n := if len < size then len else size - 1;
      && str[base..base + n] == Format(fmt, 0, args)[..n]
      && str[base + n] == '\0'
    ensures forall i :: 0 <= i < base || base + size <= i < str.Length ==> str[i] == old(str[i])
  {
    ghost var out;
    len, out := Interpret(str, base, size, fmt, args);
    Terminate(str, base, size, len, out);
  }

  /** The main loop. */
  method Interpret(str: array<char>, base: nat, size: nat, fmt: string, args: seq<Arg>) returns (len: nat, ghost out: string)
    requires base + size <= str.Length
    modifies str
    ensures out == Format(fmt, 0, args) && len == |out| && Holds(str, base, size, out)
    ensures forall i :: 0 <= i < base || base + size <= i < str.Length ==> str[i] == old(str[i])
  {
    len, out := 0, "";
    var p, rest := 0, args;
    while At(fmt, p) != '\0'
      invariant len == |out| && Holds(str, base, size, out)
      invariant out + Format(fmt, p, rest) == Format(fmt, 0, args)
      invariant forall i :: 0 <= i < base || base + size <= i < str.Length ==> str[i] == old(str[i])
      decreases |fmt| - p
    {
      ghost var piece;
      if fmt[p] != '%' {
        len, p, piece := Literal(str, base, size, len, fmt, p, rest, out);
      } else {
        len, p, rest, piece := Directive(str, base, size, len, fmt, p, rest, out);
      }
      Reassociate(out, piece, Format(fmt, p, rest));
      out := out + piece;
    }
    EndOfFormat(fmt, p, rest);
  }

  /** A NUL after the text, or in place of the last character that there is room for. */
  method Terminate(str: array<char>, base: nat, size: nat, len: nat, ghost out: string)
    requires base + size <= str.Length && len == |out| && Holds(str, base, size, out)
    modifies str
    ensures size > 0 ==>
      var n := if len < size then len else size - 1;
      str[base..base + n] == out[..n] && str[base + n] == '\0'
    ensures forall i :: 0 <= i < base || base + size <= i < str.Length ==> str[i] == old(str[i])
  {
    if size > 0 {
      var n := if len <= size - 1 then len else size - 1;
      str[base + n] := '\0';
    }
  }

  lemma EndOfFormat(fmt: string, p: nat, args: seq<Arg>)
    requires At(fmt, p) == '\0'
    ensures Format(fmt, p, args) == ""
  {
  }

  /** A stretch without conversions. */
  method Literal(str: array<char>, base: nat, size: nat, len: nat, fmt: string, p: nat, ghost args: seq<Arg>, ghost out: string)
    returns (len': nat, p': nat, ghost piece: string)
    requires base + size <= str.Length && len == |out| && Holds(str, base, size, out)
    requires p < |fmt| && fmt[p] != '%' && fmt[p] != '\0'
    modifies str
    ensures p < p' <= |fmt| && Format(fmt, p, args) == piece + Format(fmt, p', args)
    ensures len' == len + |piece| && Holds(str, base, size, out + piece)
    ensures forall i :: 0 <= i < base || base + size <= i < str.Length ==> str[i] == old(str[i])
  {
    p' := RunEnd(fmt, p);
    LiteralRun(fmt, p, p', args);
    piece := fmt[p..p'];
    len' := Put(str, base, size, len, fmt[p..p'], out);
  }

  /** A conversion specification. */
  method Directive(str: array<char>, base: nat, size: nat, len: nat, fmt: string, p: nat, args: seq<Arg>, ghost out: string)
    returns (len': nat, p': nat, args': seq<Arg>, ghost piece: string)
    requires base + size <= str.Length && len == |out| && Holds(str, base, size, out)
    requires p < |fmt| && fmt[p] == '%'
    modifies str
    ensures p < p' && Format(fmt, p, args) == piece + Format(fmt, p', args')
    ensures len' == len + |piece| && Holds(str, base, size, out + piece)
    ensures forall i :: 0 <= i < base || base + size <= i < str.Length ==> str[i] == old(str[i])
  {
    var q := ReadSpec(fmt, p + 1, args);
    var c := Convert(q.s, q.args);
    piece := Output(c);
    len' := Emit(str, base, size, len, c, out);
    p', args' := Past(fmt, q.p), ArgsAfter(q.s, q.args);
    FormatStep(fmt, p, args);
  }

  lemma FormatStep(fmt: string, p: nat, args: seq<Arg>)
    requires p < |fmt| && fmt[p] == '%'
    ensures var q := Parse(fmt, p + 1, args);
      Format(fmt, p, args) == Output(Convert(q.s, q.args)) + Format(fmt, Past(fmt, q.p), ArgsAfter(q.s, q.args))
  {
  }

  /** strchr(p + 1, '%'), or the end of the string */
  method RunEnd(fmt: string, p: nat) returns (q: nat)
    requires p < |fmt| && fmt[p] != '%' && fmt[p] != '\0'
    ensures p < q <= |fmt| && forall i :: p <= i < q ==> fmt[i] != '%' && fmt[i] != '\0'
    ensures At(fmt, q) == '%' || At(fmt, q) == '\0'
  {
    q := p + 1;
    while At(fmt, q) != '%' && At(fmt, q) != '\0'
      invariant p < q <= |fmt| && forall i :: p <= i < q ==> fmt[i] != '%' && fmt[i] != '\0'
      decreases |fmt| - q
    {
      q := q + 1;
    }
  }

  // ---------------------------------------------------------------------------------
  // rpprintf

  /** A string under construction: `m` has room for `s` characters, of which `o` are in use. */
  class Builder {
    var m: array<char>
    var o: nat
    var s: nat

    ghost predicate Valid()
      reads this
    {
      o < s <= m.Length
    }

    ghost function Contents(): string
      reads this, m
      requires Valid()
    {
      m[..o]
    }

    constructor (size: nat)
      requires size > 0
      ensures Valid() && Contents() == "" && fresh(m)
    {
      m, o, s := new char[size], 0, size;
    }

    /** Measure, double until it fits, and append. */
    method Append(fmt: string, args: seq<Arg>)
      requires Valid()
      modifies this, m
      ensures Valid() && (m == old(m) || fresh(m))
      ensures Contents() == old(Contents()) + Format(fmt, 0, args)
      ensures m[o] == '\0'
    {
      Grow(fmt, args);
      Write(fmt, args);
    }

    /** Where there is room, append. */
    method Write(fmt: string, args: seq<Arg>)
      requires Valid() && s - o > |Format(fmt, 0, args)|
      modifies `o, m
      ensures Valid() && Contents() == old(Contents()) + Format(fmt, 0, args)
      ensures m[o] == '\0'
    {
      ghost var before := m[..];
      assert before[..o] == m[..o];
      var n := VsnprintfAt(m, o, s - o, fmt, args);
      ghost var after := m[..];
      assert after[..o + n] == m[..o + n];
      o := o + n;
    }

    /** The loop: as long as the piece and its NUL do not fit, double the size. */
    method Grow(fmt: string, args: seq<Arg>)
      requires Valid()
      modifies this, m
      ensures Valid() && (m == old(m) || fresh(m)) && o == old(o) && s - o > |Format(fmt, 0, args)|
      ensures Contents() == old(Contents())
    {
      var need := Measure(m, o, fmt, args);
      while s - o <= need
        invariant Valid() && (m == old(m) || fresh(m)) && o == old(o) && m[..o] == old(m[..o])
        invariant need == |Format(fmt, 0, args)|
        decreases o + need - s
      {
        s := s * 2;
        m := Realloc(m, s);
        need := Measure(m, o, fmt, args);
      }
    }
  }

  /** Appending at `base`, with room enough. */
  method VsnprintfAt(str: array<char>, base: nat, size: nat, fmt: string, args: seq<Arg>) returns (len: nat)
    requires base + size <= str.Length && size > |Format(fmt, 0, args)|
    modifies str
    ensures len == |Format(fmt, 0, args)|
    ensures str[..][..base + len] == old(str[..])[..base] + Format(fmt, 0, args) && str[base + len] == '\0'
  {
    len := Vsnprintf(str, base, size, fmt, args);
    Appended(old(str[..]), str[..], base, Format(fmt, 0, args), len);
  }

  lemma Appended(before: string, after: string, base: nat, text: string, len: nat)
    requires base <= |before| == |after| && base + len < |after| && len == |text|
    requires forall j :: 0 <= j < base ==> after[j] == before[j]
    requires after[base..base + len] == text[..len]
    ensures after[..base + len] == before[..base] + text
  {
    assert text[..len] == text;
    assert after[..base + len] == after[..base] + after[base..base + len];
  }

  /** A call with size 0 writes nothing. */
  method Measure(str: array<char>, base: nat, fmt: string, args: seq<Arg>) returns (len: nat)
    requires base <= str.Length
    modifies str
    ensures str[..] == old(str[..])
    ensures len == |Format(fmt, 0, args)|
  {
    len := Vsnprintf(str, base, 0, fmt, args);
  }

  method Realloc(m: array<char>, size: nat) returns (r: array<char>)
    ensures fresh(r) && r.Length == size
    ensures forall i :: 0 <= i < m.Length && i < size ==> r[i] == m[i]
    ensures forall n :: 0 <= n <= m.Length && n <= size ==> r[..n] == m[..n]
  {
    r := new char[size];
    var i := 0;
    while i < m.Length && i < size
      invariant 0 <= i <= size && i <= m.Length
      invariant forall j :: 0 <= j < i ==> r[j] == m[j]
    {
      r[i] := m[i];
      i := i + 1;
    }
  }
}
