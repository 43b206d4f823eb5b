/**
  The conversions of portable_vsnprintf (libharvid/snprintf.c, without any of the
  *_COMPATIBLE macros and with long long support, as the Windows build of libharvid
  compiles it), and the layout that ISO C99, section 7.19.6.1, prescribes for them.

  `long` has 32 bits and `long long` 64.  Values that do not fit the type they are read as
  wrap.  What sprintf prints for a pointer is up to the platform: a pointer argument carries
  its text.
  */
module Conversions {
  import opened Wrappers

  /** What the caller passed for `...`. */
  datatype Arg = IntArg(i: int) | StrArg(s: Option<string>) | PtrArg(isNull: bool, text: string)

  datatype Modifier = Plain | Short | Long | LongLong

  /**
    A parsed conversion specification.  `sign`: a + or a space flag was given; `space`: no + flag
    was given; `given`: there is a precision.
    */
  datatype Spec = Spec(zero: bool, left: bool, sign: bool, space: bool, alt: bool,
                       width: nat, given: bool, prec: nat, mod: Modifier, conv: char)

  /** What a conversion hands to the code that emits it. */
  datatype Piece = Piece(text: string, split: nat, zeros: nat, zeroPad: bool, left: bool, width: nat)

  // ---------------------------------------------------------------------------------
  // Numbers

  const M16: int := 0x1_0000
  const M32: int := 0x1_0000_0000
  const M64: int := 0x1_0000_0000_0000_0000

  function Wrap(x: int, m: int): int
    requires m > 0
  {
    if x % m >= (m + 1) / 2 then x % m - m else x % m
  }

  /** The value as va_arg delivers it. */
  function Delivered(s: Spec, x: int): int
  {
    var m := if s.mod == LongLong then M64 else M32;
    if s.conv == 'd' then Wrap(x, m) else x % m
  }

  /** The value as sprintf prints it: h cuts it down to a short. */
  function Printed(s: Spec, x: int): int
  {
    if s.mod != Short then Delivered(s, x)
    else if s.conv == 'd' then Wrap(Delivered(s, x), M16) else Delivered(s, x) % M16
  }

  /** It is the argument up to a multiple of 2^16 for h, 2^32 for no modifier and for l, 2^64 for ll, and in range. */
  lemma PrintedIs(s: Spec, x: int)
    ensures var m := if s.mod == Short then 65536 else if s.mod == LongLong then 18446744073709551616 else 4294967296;
      && (Printed(s, x) - x) % m == 0
      && if s.conv == 'd' then -m <= 2 * Printed(s, x) < m else 0 <= Printed(s, x) < m
  {
    if s.mod == Short {
      WrapIs(x, 4294967296);
      WrapIs(Delivered(s, x), 65536);
      ShortOfLong(x, Delivered(s, x), Printed(s, x));
    } else {
      WrapIs(x, if s.mod == LongLong then M64 else M32);
    }
  }

  lemma WrapIs(x: int, m: int)
    requires m == 65536 || m == 4294967296 || m == 18446744073709551616
    ensures (Wrap(x, m) - x) % m == 0 && -m <= 2 * Wrap(x, m) < m
    ensures (x % m - x) % m == 0 && 0 <= x % m < m
  {
  }

  lemma ShortOfLong(x: int, v: int, p: int)
    requires (v - x) % 4294967296 == 0 && (p - v) % 65536 == 0
    ensures (p - x) % 65536 == 0
  {
    assert v - x == 65536 * (65536 * ((v - x) / 4294967296)) && p - v == 65536 * ((p - v) / 65536);
  }

  function Base(conv: char): (b: nat)
    ensures 8 <= b <= 16
  {
    if conv == 'o' then 8 else if conv == 'x' || conv == 'X' then 16 else 10
  }

  function DigitChar(d: nat, conv: char): (c: char)
    requires d < 16
    ensures c != 'x' && c != 'X' && c != '-' && (d > 0 ==> c != '0')
  {
    if conv == 'X' then "0123456789ABCDEF"[d] else "0123456789abcdef"[d]
  }

  function DigitValue(c: char): nat
  {
    if '0' <= c <= '9' then (c - '0') as nat
    else if 'a' <= c <= 'f' then (c - 'a') as nat + 10
    else if 'A' <= c <= 'F' then (c - 'A') as nat + 10
    else 0
  }

  function Digits(n: nat, conv: char): (r: string)
    ensures |r| >= 1
    ensures n > 0 ==> r[0] != '0'
    ensures r[0] != '-'
    ensures |r| > 1 ==> r[1] != 'x' && r[1] != 'X'
    decreases n
  {
    var b := Base(conv);
    if n < b then [DigitChar(n, conv)]
    else
      Divided(n, b);
      DigitsAppend(Digits(n / b, conv), DigitChar(n % b, conv))
  }

  /** One more digit after those there are. */
  function DigitsAppend(front: string, c: char): (r: string)
    requires |front| >= 1 && front[0] != '-' && front[0] != '0' && c != 'x' && c != 'X'
    requires |front| > 1 ==> front[1] != 'x' && front[1] != 'X'
    ensures |r| > 1 && r[0] != '0' && r[0] != '-' && r[1] != 'x' && r[1] != 'X'
  {
    front + [c]
  }

  lemma Divided(n: nat, b: nat)
    requires 2 <= b <= n
    ensures 0 < n / b < n && 0 <= n % b < b
  {
  }

  /** Octal, hexadecimal and decimal, as section 7.19.6.1 of ISO C99 has it; the digits follow below. */
  function C99Base(conv: char): (b: nat)
    ensures b == Base(conv)
  {
    match conv
    case 'o' => 8
    case 'x' => 16
    case 'X' => 16
    case _ => 10
  }

  function ValueOf(s: string, conv: char): nat
  {
    if s == "" then 0 else ValueOf(s[..|s| - 1], conv) * C99Base(conv) + DigitValue(s[|s| - 1])
  }

  lemma DigitCharValue(d: nat, conv: char)
    requires d < 16
    ensures DigitValue(DigitChar(d, conv)) == d
  {
  }

  lemma {:induction false} DigitsRoundTrip(n: nat, conv: char)
    ensures ValueOf(Digits(n, conv), conv) == n
    decreases n
  {
    var b, r := Base(conv), Digits(n, conv);
    DigitCharValue(n % b, conv);
    if n >= b {
      DigitsRoundTrip(n / b, conv);
      assert r[..|r| - 1] == Digits(n / b, conv);
    } else {
      assert r[..0] == "" && n % b == n;
    }
  }

  function Pow(b: nat, k: nat): nat
  {
    if k == 0 then 1 else b * Pow(b, k - 1)
  }

  lemma {:induction false} DigitsBound(n: nat, conv: char, k: nat)
    requires n < Pow(Base(conv), k) && k > 0
    ensures |Digits(n, conv)| <= k
    decreases n
  {
    var b := Base(conv);
    assert Pow(b, 1) == b * Pow(b, 0);
    if n >= b {
      assert n / b < Pow(b, k - 1);
      DigitsBound(n / b, conv, k - 1);
    }
  }

  // ---------------------------------------------------------------------------------
  // Numeric conversions as the source does them

  predicate IsNumber(conv: char)
  {
    conv == 'd' || conv == 'u' || conv == 'o' || conv == 'x' || conv == 'X'
  }

  /** What sprintf prints with %d, %u, %o, %x or %X and no flags. */
  function NumberText(conv: char, v: int): string
  {
    if v < 0 then "-" + Digits(-v, conv) else Digits(v, conv)
  }

  /** The sign of the argument before h cuts it down. */
  function ArgSign(s: Spec, a: Arg): int
  {
    match a
    case IntArg(i) => var v := Delivered(s, i); if v > 0 then 1 else if v < 0 then -1 else 0
    case PtrArg(isNull, _) => if isNull then 0 else 1
    case StrArg(_) => 0
  }

  /** What the source has put into tmp before it calls sprintf. */
  function EarlyPrefix(s: Spec, sign: int): string
  {
    if s.conv == 'd' then
      if s.sign && sign >= 0 then (if s.space then " " else "+") else ""
    else if s.alt && sign != 0 && (s.conv == 'x' || s.conv == 'X') then ['0', s.conv]
    else ""
  }

  function SprintfText(s: Spec, a: Arg): string
  {
    match a
    case IntArg(i) => NumberText(s.conv, Printed(s, i))
    case PtrArg(_, text) => text
    case StrArg(_) => ""
  }

  /** A minus sign and a 0x that sprintf printed belong before the zeros. */
  function SplitAfter(text: string, at: nat): nat
    requires at <= |text|
    ensures at <= SplitAfter(text, at) <= |text|
  {
    var i := if at < |text| && text[at] == '-' then at + 1 else at;
    if i + 1 < |text| && text[i] == '0' && (text[i + 1] == 'x' || text[i + 1] == 'X') then i + 2 else i
  }

  function NumericPiece(s: Spec, a: Arg): (p: Piece)
    ensures p.split <= |p.text|
  {
    Assembled(s, ArgSign(s, a), SprintfText(s, a))
  }

  /** Text with a number of zeros to be inserted. */
  datatype Core = Core(text: string, split: nat, zeros: nat)

  /** From the sign of the argument and what sprintf prints for it to the zeros that the precision asks for. */
  function CoreOf(s: Spec, sign: int, printed: string): (c: Core)
    ensures c.split <= |c.text|
  {
    var prefix := EarlyPrefix(s, sign);
    var prec := if s.given then s.prec else 1;
    var empty := prec == 0 && sign == 0;
    var text := if empty then prefix else prefix + printed;
    var split := if empty then |prefix| else SplitAfter(text, |prefix|);
    var digits := |text| - split;
    var leadingZero := split < |text| && text[split] == '0';
    var octal := s.alt && s.conv == 'o' && !leadingZero && (!s.given || prec < digits + 1);
    Core(text, split, Monus(if octal then digits + 1 else prec, digits))
  }

  function Assembled(s: Spec, sign: int, printed: string): (p: Piece)
    ensures p.split <= |p.text|
  {
    ZeroFilled(s, CoreOf(s, sign, printed))
  }

  /** More zeros, up to the field width. */
  function ZeroFilled(s: Spec, c: Core): Piece
  {
    var zeroPad := s.zero && !s.given;
    Piece(c.text, c.split, if !s.left && zeroPad then c.zeros + Monus(s.width, |c.text| + c.zeros) else c.zeros,
          zeroPad, s.left, s.width)
  }

  function Monus(a: nat, b: nat): nat
  {
    if a > b then a - b else 0
  }

  function Rep(c: char, n: nat): (r: string)
    ensures |r| == n && forall i :: 0 <= i < n ==> r[i] == c
  {
    seq(n, _ => c)
  }

  /** The characters a piece is emitted as. */
  function Output(p: Piece): string
    requires p.split <= |p.text|
  {
    var fill := Monus(p.width, |p.text| + p.zeros);
    (if p.left then "" else Rep(if p.zeroPad then '0' else ' ', fill))
    + p.text[..p.split] + Rep('0', p.zeros) + p.text[p.split..]
    + (if p.left then Rep(' ', fill) else "")
  }

  // ---------------------------------------------------------------------------------
  // The layout of ISO C99, section 7.19.6.1

  /** Sign or 0x of a converted value. */
  function C99Prefix(s: Spec, v: int): string
  {
    if s.conv == 'd' then
      if v < 0 then "-" else if s.sign && !s.space then "+" else if s.sign then " " else ""
    else if s.alt && v != 0 && s.conv == 'x' then "0x"
    else if s.alt && v != 0 && s.conv == 'X' then "0X"
    else ""
  }

  /** The letters abcdef are used for x, and ABCDEF for X. */
  function C99Digit(d: nat, conv: char): (c: char)
    requires d < 16
    ensures c == DigitChar(d, conv)
  {
    if d < 10 then (48 + d) as char else if conv == 'X' then (55 + d) as char else (87 + d) as char
  }

  function C99Numeral(n: nat, conv: char): (r: string)
    ensures r == Digits(n, conv)
    decreases n
  {
    var b := C99Base(conv);
    if n < b then [C99Digit(n, conv)] else Divided(n, b); C99Numeral(n / b, conv) + [C99Digit(n % b, conv)]
  }

  /** At least `precision` digits; none for value 0 with precision 0; # makes an octal number start with 0. */
  function C99Body(s: Spec, v: int): string
  {
    var digits := if v == 0 && s.given && s.prec == 0 then "" else C99Numeral(if v < 0 then -v else v, s.conv);
    var body := Rep('0', Monus(if s.given then s.prec else 1, |digits|)) + digits;
    if s.conv == 'o' && s.alt && (body == "" || body[0] != '0') then "0" + body else body
  }

  /** The field: as wide as asked for, filled with blanks on one side or with zeros after the prefix. */
  function Field(s: Spec, prefix: string, body: string): (r: string)
    ensures |r| == if s.width > |prefix| + |body| then s.width else |prefix| + |body|
  {
    var fill := Monus(s.width, |prefix| + |body|);
    if s.left then prefix + body + Rep(' ', fill)
    else if s.zero && !s.given then prefix + Rep('0', fill) + body
    else Rep(' ', fill) + prefix + body
  }

  function C99(s: Spec, v: int): string
  {
    Field(s, C99Prefix(s, v), C99Body(s, v))
  }

  /** What the source emits before and after the zeros that fill the field. */
  function CodePrefix(s: Spec, sign: int, printed: string): string
  {
    var c := CoreOf(s, sign, printed);
    c.text[..c.split]
  }

  function CodeBody(s: Spec, sign: int, printed: string): string
  {
    var c := CoreOf(s, sign, printed);
    Rep('0', c.zeros) + c.text[c.split..]
  }

  /**
    The modifier h is the one thing that can go wrong: the source looks at the sign of the
    argument before it is cut down to a short.
    */
  predicate Harmless(s: Spec, sign: int, v: int)
  {
    && (s.conv == 'd' && s.sign ==> (sign < 0 <==> v < 0))
    && (sign != 0 && v == 0 ==>
          && !(s.given && s.prec == 0 && !(s.conv == 'o' && s.alt))
          && !(s.alt && (s.conv == 'x' || s.conv == 'X')))
  }

  predicate ShortIsHarmless(s: Spec, x: int)
  {
    Harmless(s, ArgSign(s, IntArg(x)), Printed(s, x))
  }

  lemma NumberTextSplit(conv: char, v: int, prefix: string)
    ensures var text := prefix + NumberText(conv, v);
      SplitAfter(text, |prefix|) == |prefix| + if v < 0 then 1 else 0
  {
    var d := Digits(if v < 0 then -v else v, conv);
    if v < 0 {
      assert prefix + NumberText(conv, v) == prefix + "-" + d;
      SplitBefore(prefix + "-", |prefix|, d);
    } else {
      SplitBefore(prefix, |prefix|, d);
    }
  }

  lemma SplitBefore(front: string, at: nat, d: string)
    requires d != "" && d[0] != '-' && (|d| > 1 ==> d[1] != 'x' && d[1] != 'X')
    requires at == |front| || (at == |front| - 1 && front[at] == '-')
    ensures SplitAfter(front + d, at) == |front|
  {
    var text := front + d;
    assert text[|front|] == d[0];
    assert |d| > 1 ==> text[|front| + 1] == d[1];
  }

  /** The source's parts of the number are the standard's exactly if the modifier h is harmless. */
  lemma PartsAgreeIff(s: Spec, sign: int, v: int)
    requires IsNumber(s.conv) && (s.conv == 'd' || (v >= 0 && sign >= 0)) && (sign == 0 ==> v == 0)
    ensures CodePrefix(s, sign, NumberText(s.conv, v)) == C99Prefix(s, v) && CodeBody(s, sign, NumberText(s.conv, v)) == C99Body(s, v)
      <==> Harmless(s, sign, v)
  {
    if s.conv == 'd' {
      SignedPartsAgreeIff(s, sign, v);
    } else {
      UnsignedPartsAgreeIff(s, sign, v);
    }
  }

  lemma SignedParts(s: Spec, sign: int, v: int)
    requires s.conv == 'd' && !(sign == 0 && s.given && s.prec == 0)
    ensures var d := Digits(if v < 0 then -v else v, 'd');
      && CodePrefix(s, sign, NumberText('d', v)) == EarlyPrefix(s, sign) + (if v < 0 then "-" else "")
      && CodeBody(s, sign, NumberText('d', v)) == Rep('0', Monus(if s.given then s.prec else 1, |d|)) + d
  {
    var prefix, d := EarlyPrefix(s, sign), Digits(if v < 0 then -v else v, 'd');
    var front := prefix + if v < 0 then "-" else "";
    NumberTextSplit(s.conv, v, prefix);
    assert prefix + NumberText('d', v) == front + d;
    SignedCore(s, sign, NumberText('d', v), front, d);
    CutAfter(front, d);
  }

  lemma SignedCore(s: Spec, sign: int, printed: string, front: string, d: string)
    requires s.conv == 'd' && !(sign == 0 && s.given && s.prec == 0)
    requires EarlyPrefix(s, sign) + printed == front + d && SplitAfter(front + d, |EarlyPrefix(s, sign)|) == |front|
    ensures CoreOf(s, sign, printed) == Core(front + d, |front|, Monus(if s.given then s.prec else 1, |d|))
  {
  }

  lemma CutAfter(a: string, b: string)
    ensures (a + b)[..|a|] == a && (a + b)[|a|..] == b
  {
  }

  lemma SignedPartsAgreeIff(s: Spec, sign: int, v: int)
    requires s.conv == 'd' && (sign == 0 ==> v == 0)
    ensures CodePrefix(s, sign, NumberText(s.conv, v)) == C99Prefix(s, v) && CodeBody(s, sign, NumberText(s.conv, v)) == C99Body(s, v)
      <==> Harmless(s, sign, v)
  {
    if !(sign == 0 && s.given && s.prec == 0) {
      SignedParts(s, sign, v);
    }
  }

  lemma UnsignedParts(s: Spec, sign: int, v: nat)
    requires s.conv != 'd'
    ensures var c := CoreOf(s, sign, NumberText(s.conv, v));
      && c.text[..c.split] == EarlyPrefix(s, sign)
      && c.text[c.split..] == if s.given && s.prec == 0 && sign == 0 then "" else Digits(v, s.conv)
  {
    var prefix, c := EarlyPrefix(s, sign), CoreOf(s, sign, NumberText(s.conv, v));
    NumberTextSplit(s.conv, v, prefix);
    assert c.text == prefix + if s.given && s.prec == 0 && sign == 0 then "" else Digits(v, s.conv);
  }

  lemma OneMoreZero(k: nat, digits: string)
    ensures "0" + (Rep('0', k) + digits) == Rep('0', k + 1) + digits
  {
  }

  /** The digits of the standard, and how many zeros it puts before them. */
  function C99Digits(s: Spec, v: int): string
  {
    if v == 0 && s.given && s.prec == 0 then "" else C99Numeral(if v < 0 then -v else v, s.conv)
  }

  function C99Zeros(s: Spec, v: int): nat
  {
    var digits := C99Digits(s, v);
    var k := Monus(if s.given then s.prec else 1, |digits|);
    if s.conv == 'o' && s.alt && k == 0 && (digits == "" || digits[0] != '0') then 1 else k
  }

  lemma C99BodyIs(s: Spec, v: int)
    ensures C99Body(s, v) == Rep('0', C99Zeros(s, v)) + C99Digits(s, v)
  {
    var digits := C99Digits(s, v);
    var k := Monus(if s.given then s.prec else 1, |digits|);
    OneMoreZero(k, digits);
    assert Rep('0', 0) + digits == digits;
  }

  /** A value that is 0 with precision 0, though its argument was not. */
  lemma ZeroWithoutDigits(s: Spec, sign: int)
    requires s.conv != 'd' && sign > 0 && s.given && s.prec == 0
    ensures CodeBody(s, sign, NumberText(s.conv, 0)) == "0"
    ensures C99Body(s, 0) == if s.conv == 'o' && s.alt then "0" else ""
  {
    UnsignedParts(s, sign, 0);
    var c := CoreOf(s, sign, NumberText(s.conv, 0));
    assert c.text[c.split..] == "0" && c.zeros == 0;
    assert Rep('0', 0) + "0" == "0";
  }

  /** The bodies differ exactly where a short that comes out as 0 should have had no digits. */
  lemma BodyAgreesIff(s: Spec, sign: int, v: nat)
    requires s.conv != 'd' && sign >= 0 && (sign == 0 ==> v == 0)
    ensures CodeBody(s, sign, NumberText(s.conv, v)) == C99Body(s, v) <==>
      !(sign != 0 && v == 0 && s.given && s.prec == 0 && !(s.conv == 'o' && s.alt))
  {
    var c := CoreOf(s, sign, NumberText(s.conv, v));
    UnsignedParts(s, sign, v);
    C99BodyIs(s, v);
    if sign != 0 && v == 0 && s.given && s.prec == 0 {
      ZeroWithoutDigits(s, sign);
    } else {
      assert c.text[c.split..] == C99Digits(s, v) && c.zeros == C99Zeros(s, v);
    }
  }

  lemma UnsignedPartsAgreeIff(s: Spec, sign: int, v: int)
    requires s.conv != 'd' && v >= 0 && sign >= 0 && (sign == 0 ==> v == 0)
    ensures CodePrefix(s, sign, NumberText(s.conv, v)) == C99Prefix(s, v) && CodeBody(s, sign, NumberText(s.conv, v)) == C99Body(s, v)
      <==> Harmless(s, sign, v)
  {
    UnsignedParts(s, sign, v);
    BodyAgreesIff(s, sign, v);
    assert EarlyPrefix(s, sign) == C99Prefix(s, v) <==> !(s.alt && (s.conv == 'x' || s.conv == 'X') && sign != 0 && v == 0);
  }

  lemma PaddedRight(s: Spec, a: string, b: string, z: nat)
    requires s.left
    ensures Output(ZeroFilled(s, Core(a + b, |a|, z))) == Field(s, a, Rep('0', z) + b)
  {
    var fill := Monus(s.width, |a| + |b| + z);
    assert (a + b)[..|a|] == a && (a + b)[|a|..] == b;
    assert a + Rep('0', z) + b + Rep(' ', fill) == a + (Rep('0', z) + b) + Rep(' ', fill);
  }

  lemma PaddedWithZeros(s: Spec, a: string, b: string, z: nat)
    requires !s.left && s.zero && !s.given
    ensures Output(ZeroFilled(s, Core(a + b, |a|, z))) == Field(s, a, Rep('0', z) + b)
  {
    var fill := Monus(s.width, |a| + |b| + z);
    assert (a + b)[..|a|] == a && (a + b)[|a|..] == b;
    assert Rep('0', z + fill) == Rep('0', fill) + Rep('0', z);
    assert a + Rep('0', z + fill) + b == a + Rep('0', fill) + (Rep('0', z) + b);
  }

  lemma PaddedWithBlanks(s: Spec, a: string, b: string, z: nat)
    requires !s.left && !(s.zero && !s.given)
    ensures Output(ZeroFilled(s, Core(a + b, |a|, z))) == Field(s, a, Rep('0', z) + b)
  {
    var fill := Monus(s.width, |a| + |b| + z);
    assert (a + b)[..|a|] == a && (a + b)[|a|..] == b;
    assert Rep(' ', fill) + a + Rep('0', z) + b == Rep(' ', fill) + a + (Rep('0', z) + b);
  }

  /** However a piece is padded, the field looks as the standard says, given the parts. */
  lemma PaddingIsField(s: Spec, text: string, split: nat, z: nat)
    requires split <= |text|
    ensures Output(ZeroFilled(s, Core(text, split, z))) == Field(s, text[..split], Rep('0', z) + text[split..])
  {
    var a, b := text[..split], text[split..];
    assert a + b == text;
    if s.left {
      PaddedRight(s, a, b, z);
    } else if s.zero && !s.given {
      PaddedWithZeros(s, a, b, z);
    } else {
      PaddedWithBlanks(s, a, b, z);
    }
  }

  lemma OutputIsField(s: Spec, sign: int, printed: string)
    ensures Output(Assembled(s, sign, printed)) == Field(s, CodePrefix(s, sign, printed), CodeBody(s, sign, printed))
  {
    var c := CoreOf(s, sign, printed);
    PaddingIsField(s, c.text, c.split, c.zeros);
  }

  lemma Signs(s: Spec, x: int)
    requires IsNumber(s.conv)
    ensures var sign, v := ArgSign(s, IntArg(x)), Printed(s, x);
      (s.conv == 'd' || (v >= 0 && sign >= 0)) && (sign == 0 ==> v == 0)
    ensures s.mod != Short ==> Printed(s, x) == Delivered(s, x) && ShortIsHarmless(s, x)
  {
  }

  // ---------------------------------------------------------------------------------
  // The characters emitted

  /**
    Or else nobody sees it: a blank for the sign, one too many or one missing, is taken for one
    of the blanks that fill the field on the left.
    */
  predicate Hidden(s: Spec, sign: int, v: int)
  {
    && s.conv == 'd' && s.sign && s.space && (sign < 0) != (v < 0)
    && BlanksInFront(s) && !NoDigits(s, v)
    && s.width > |C99Body(s, v)| + if v < 0 then 1 else 0
  }

  predicate BlanksInFront(s: Spec)
  {
    !s.left && !(s.zero && !s.given)
  }

  predicate NoDigits(s: Spec, v: int)
  {
    v == 0 && s.given && s.prec == 0
  }

  /** Fields that differ in any character but blanks and zeros differ. */
  lemma InField(s: Spec, prefix: string, body: string, c: char)
    requires c != ' ' && (c == '0' ==> s.given)
    ensures c in Field(s, prefix, body) <==> c in prefix || c in body
  {
    var fill := Monus(s.width, |prefix| + |body|);
    assert c !in Rep(' ', fill) && (c != '0' ==> c !in Rep('0', fill));
  }

  lemma FieldStart(s: Spec, prefix: string, body: string)
    requires !BlanksInFront(s) && body != ""
    ensures var f := Field(s, prefix, body);
      |f| > 0 && if prefix != "" then f[0] == prefix[0] else f[0] == body[0] || f[0] == '0'
  {
  }

  /** A sign that is a blank more does not show exactly if there is a blank to be filled in anyway. */
  lemma BlankSignIff(s: Spec, prefix: string, body: string)
    requires body != "" && body[0] != ' ' && (prefix == "" || prefix[0] != ' ')
    ensures Field(s, " " + prefix, body) == Field(s, prefix, body) <==> BlanksInFront(s) && s.width > |prefix| + |body|
  {
    if BlanksInFront(s) {
      if s.width > |prefix| + |body| {
        var fill := Monus(s.width, |prefix| + |body| + 1);
        assert Rep(' ', fill) + (" " + prefix) + body == Rep(' ', fill + 1) + prefix + body;
      }
    } else {
      FieldStart(s, " " + prefix, body);
      FieldStart(s, prefix, body);
    }
  }

  lemma {:induction false} NoOtherChars(n: nat, conv: char, c: char)
    requires c == ' ' || c == '+' || c == '-' || c == 'X' || c == 'x'
    ensures c !in Digits(n, conv)
    decreases n
  {
    var b := Base(conv);
    if n >= b {
      Divided(n, b);
      NoOtherChars(n / b, conv, c);
    }
  }

  lemma BodyChars(s: Spec, v: int, c: char)
    requires c == ' ' || c == '+' || c == '-' || c == 'X' || c == 'x'
    ensures c !in C99Body(s, v)
    ensures !NoDigits(s, v) ==> C99Body(s, v) != "" && C99Body(s, v)[0] != ' '
  {
    C99BodyIs(s, v);
    NoOtherChars(if v < 0 then -v else v, s.conv, c);
    NoOtherChars(if v < 0 then -v else v, s.conv, ' ');
  }

  /** %d: a sign of the argument that h has changed shows, unless it is a blank among blanks. */
  lemma SignedFieldIff(s: Spec, sign: int, v: int)
    requires s.conv == 'd' && (sign == 0 ==> v == 0) && !NoDigits(s, v)
    ensures Field(s, EarlyPrefix(s, sign) + (if v < 0 then "-" else ""), C99Body(s, v)) == C99(s, v)
      <==> Harmless(s, sign, v) || Hidden(s, sign, v)
  {
    var minus, b := if v < 0 then "-" else "", C99Body(s, v);
    var code := EarlyPrefix(s, sign) + minus;
    if Harmless(s, sign, v) {
      assert code == C99Prefix(s, v);
    } else if s.space {
      BodyChars(s, v, ' ');
      BlankSignIff(s, minus, b);
      assert if sign >= 0 then code == " " + minus && C99Prefix(s, v) == minus else code == minus && C99Prefix(s, v) == " " + minus;
    } else {
      BodyChars(s, v, '+');
      InField(s, code, b, '+');
      InField(s, C99Prefix(s, v), b, '+');
      assert '+' in code <==> sign >= 0;
      assert '+' in C99Prefix(s, v) <==> v >= 0;
    }
  }

  /** A 0 that should have had no digits shows. */
  lemma ZeroShows(s: Spec, prefix: string, prefix': string)
    requires s.given && '0' !in prefix'
    ensures Field(s, prefix, "0") != Field(s, prefix', "")
  {
    InField(s, prefix, "0", '0');
    InField(s, prefix', "", '0');
  }

  /** So does a prefix 0x where there should be none. */
  lemma PrefixShows(s: Spec, prefix: string, body: string)
    requires prefix == "0x" || prefix == "0X"
    requires prefix[1] !in body
    ensures Field(s, prefix, body) != Field(s, "", body)
  {
    InField(s, prefix, body, prefix[1]);
    InField(s, "", body, prefix[1]);
  }

  /** The characters that the source emits for a number are those of the standard exactly if h is harmless, or its harm does not show. */
  lemma EmittedIsFieldIff(s: Spec, sign: int, v: int)
    requires IsNumber(s.conv) && (s.conv == 'd' || (v >= 0 && sign >= 0)) && (sign == 0 ==> v == 0)
    ensures Output(Assembled(s, sign, NumberText(s.conv, v))) == C99(s, v) <==> Harmless(s, sign, v) || Hidden(s, sign, v)
  {
    OutputIsField(s, sign, NumberText(s.conv, v));
    PartsAgreeIff(s, sign, v);
    if !Harmless(s, sign, v) {
      if s.conv == 'd' {
        SignedHarm(s, sign, v);
      } else {
        UnsignedHarm(s, sign, v);
      }
    }
  }

  lemma SignedZero(s: Spec, sign: int, v: int)
    requires s.conv == 'd' && sign != 0 && NoDigits(s, v)
    ensures CodePrefix(s, sign, NumberText(s.conv, v)) == EarlyPrefix(s, sign) && CodeBody(s, sign, NumberText(s.conv, v)) == "0"
    ensures C99Body(s, v) == "" && '0' !in C99Prefix(s, v)
  {
    SignedParts(s, sign, v);
    assert Digits(v, 'd') == "0" && Rep('0', 0) + "0" == "0" && Rep('0', 0) + "" == "";
  }

  lemma SignedHarm(s: Spec, sign: int, v: int)
    requires s.conv == 'd' && (sign == 0 ==> v == 0) && !Harmless(s, sign, v)
    ensures Field(s, CodePrefix(s, sign, NumberText(s.conv, v)), CodeBody(s, sign, NumberText(s.conv, v))) == C99(s, v) <==> Hidden(s, sign, v)
  {
    if NoDigits(s, v) {
      SignedZero(s, sign, v);
      ZeroShows(s, EarlyPrefix(s, sign), C99Prefix(s, v));
    } else {
      SignedParts(s, sign, v);
      SignedFieldIff(s, sign, v);
    }
  }

  lemma UnsignedHarm(s: Spec, sign: int, v: nat)
    requires s.conv != 'd' && sign >= 0 && (sign == 0 ==> v == 0) && !Harmless(s, sign, v)
    ensures Field(s, CodePrefix(s, sign, NumberText(s.conv, v)), CodeBody(s, sign, NumberText(s.conv, v))) != C99(s, v)
  {
    UnsignedParts(s, sign, v);
    BodyAgreesIff(s, sign, v);
    if NoDigits(s, v) && !(s.conv == 'o' && s.alt) {
      ZeroWithoutDigits(s, sign);
      ZeroShows(s, EarlyPrefix(s, sign), "");
    } else {
      BodyChars(s, v, s.conv);
      PrefixShows(s, EarlyPrefix(s, sign), C99Body(s, v));
    }
  }

  /** A conversion is laid out as the standard says exactly if its h modifier is harmless, or the harm does not show. */
  lemma ConversionLayoutIff(s: Spec, x: int)
    requires IsNumber(s.conv)
    ensures Output(NumericPiece(s, IntArg(x))) == C99(s, Printed(s, x)) <==> ShortIsHarmless(s, x) || ShortIsHidden(s, x)
  {
    Signs(s, x);
    EmittedIsFieldIff(s, ArgSign(s, IntArg(x)), Printed(s, x));
  }

  predicate ShortIsHidden(s: Spec, x: int)
  {
    Hidden(s, ArgSign(s, IntArg(x)), Printed(s, x))
  }

  /** With % 10hd, and likewise in any wider field, the stray blank that 40000 gives does not show. */
  lemma ShortIsHiddenInBlanks(s: Spec, x: int)
    requires s.conv == 'd' && s.mod == Short && s.sign && s.space && BlanksInFront(s) && !s.given && s.width >= 10 && x == 40000
    ensures !ShortIsHarmless(s, x) && Output(NumericPiece(s, IntArg(x))) == C99(s, Printed(s, x))
  {
    ShortOf40000(s);
    ShortWidth(s, Printed(s, x));
    ConversionLayoutIff(s, x);
  }

  lemma ShortOf40000(s: Spec)
    requires s.conv == 'd' && s.mod == Short
    ensures ArgSign(s, IntArg(40000)) == 1 && Printed(s, 40000) == -25536
  {
  }

  lemma ShortWidth(s: Spec, v: int)
    requires s.conv == 'd' && !s.given && -M16 <= v <= M16
    ensures |C99Body(s, v)| <= 6
  {
    C99BodyIs(s, v);
    assert Pow(10, 3) == 1000;
    PowSum(10, 3, 3);
    DigitsBound(if v < 0 then -v else v, 'd', 6);
  }

  /** Without h, or for an argument that fits a short, nothing can go wrong. */
  lemma FittingShortIsHarmless(s: Spec, x: int)
    requires IsNumber(s.conv)
    requires s.mod == Short ==> if s.conv == 'd' then -0x8000 <= x < 0x8000 else 0 <= x < 0x1_0000
    ensures ShortIsHarmless(s, x)
    ensures Printed(s, x) == if s.mod == Short then x else Delivered(s, x)
  {
  }

  /** With %+hd, 40000 comes out as a number with two signs. */
  lemma ShortGoesWrong(s: Spec)
    requires s.conv == 'd' && s.mod == Short && s.sign && !s.space && !s.given && !s.left && !s.zero && s.width == 0
    ensures Output(NumericPiece(s, IntArg(40000))) == "+-" + Digits(25536, 'd')
    ensures C99(s, Printed(s, 40000)) == "-" + Digits(25536, 'd')
  {
    ShortOf40000(s);
    SignedShort(s, Printed(s, 40000));
  }

  /** A negative number for which the source has seen a positive argument gets both signs. */
  lemma SignedShort(s: Spec, v: int)
    requires v < 0 && s.conv == 'd' && s.sign && !s.space && !s.given && !s.left && !s.zero && s.width == 0
    ensures Output(Assembled(s, 1, NumberText('d', v))) == "+-" + Digits(-v, 'd') && C99(s, v) == "-" + Digits(-v, 'd')
  {
    SignedParts(s, 1, v);
    OutputIsField(s, 1, NumberText('d', v));
    PlainField(s, "+-", Digits(-v, 'd'));
    PlainField(s, "-", Digits(-v, 'd'));
  }

  lemma PlainField(s: Spec, prefix: string, digits: string)
    requires s.width == 0 && !s.left && !s.zero && digits != ""
    ensures Field(s, prefix, Rep('0', 0) + digits) == prefix + digits
  {
    assert Rep(' ', 0) + prefix + (Rep('0', 0) + digits) == prefix + digits;
  }

  /** The digits read back as the magnitude of the value; there are none exactly for 0 with precision 0. */
  lemma BodyReadsBack(s: Spec, v: int)
    requires IsNumber(s.conv)
    ensures ValueOf(C99Body(s, v), s.conv) == if v < 0 then -v else v
    ensures C99Body(s, v) == "" <==> v == 0 && s.given && s.prec == 0 && !(s.conv == 'o' && s.alt)
  {
    C99BodyIs(s, v);
    DigitsRoundTrip(if v < 0 then -v else v, s.conv);
    LeadingZeros(C99Zeros(s, v), C99Digits(s, v), s.conv);
  }

  /** So do the digits the source emits, whatever the sign of the argument before h cut it down. */
  lemma EmittedReadsBack(s: Spec, sign: int, v: int)
    requires IsNumber(s.conv) && (s.conv == 'd' || v >= 0) && (sign == 0 ==> v == 0)
    ensures ValueOf(CodeBody(s, sign, NumberText(s.conv, v)), s.conv) == if v < 0 then -v else v
    ensures CodeBody(s, sign, NumberText(s.conv, v)) == "" <==> sign == 0 && s.given && s.prec == 0 && !(s.conv == 'o' && s.alt)
  {
    var n: nat := if v < 0 then -v else v;
    var c := CoreOf(s, sign, NumberText(s.conv, v));
    CoreDigits(s, sign, v);
    DigitsRoundTrip(n, s.conv);
    LeadingZeros(c.zeros, c.text[c.split..], s.conv);
  }

  lemma CoreDigits(s: Spec, sign: int, v: int)
    requires s.conv == 'd' || v >= 0
    ensures var c := CoreOf(s, sign, NumberText(s.conv, v));
      c.text[c.split..] == if s.given && s.prec == 0 && sign == 0 then "" else Digits(if v < 0 then -v else v, s.conv)
  {
    var prefix, c := EarlyPrefix(s, sign), CoreOf(s, sign, NumberText(s.conv, v));
    NumberTextSplit(s.conv, v, prefix);
    if !(s.given && s.prec == 0 && sign == 0) {
      assert c.text == prefix + NumberText(s.conv, v);
    }
  }

  lemma {:induction false} LeadingZeros(k: nat, digits: string, conv: char)
    ensures ValueOf(Rep('0', k) + digits, conv) == ValueOf(digits, conv)
  {
    var s := Rep('0', k) + digits;
    if digits != "" {
      var front := digits[..|digits| - 1];
      LeadingZeros(k, front, conv);
      assert s[..|s| - 1] == Rep('0', k) + front;
    } else if k > 0 {
      LeadingZeros(k - 1, digits, conv);
      assert s[..|s| - 1] == Rep('0', k - 1) + digits;
    }
  }

  // ---------------------------------------------------------------------------------
  // tmp[32]

  lemma PowersOfBases()
    ensures M64 < Pow(10, 20) && M64 < Pow(8, 22) && M64 <= Pow(16, 16)
  {
    assert Pow(10, 10) == 10000000000;
    PowSum(10, 10, 10);
    assert Pow(8, 11) == 0x2_0000_0000;
    PowSum(8, 11, 11);
    assert Pow(16, 8) == M32;
    PowSum(16, 8, 8);
  }

  lemma {:induction false} PowSum(b: nat, i: nat, j: nat)
    ensures Pow(b, i + j) == Pow(b, i) * Pow(b, j)
  {
    if i > 0 {
      PowSum(b, i - 1, j);
      Associate(b, Pow(b, i - 1), Pow(b, j));
    }
  }

  lemma Associate(x: nat, y: nat, z: nat)
    ensures x * (y * z) == x * y * z
  {
  }

  lemma NumberTextLength(conv: char, v: int)
    requires -M64 < v < M64
    ensures |NumberText(conv, v)| <= 23
  {
    PowersOfBases();
    PowSum(Base(conv), 16, 6);
    PowSum(Base(conv), 20, 2);
    DigitsBound(if v < 0 then -v else v, conv, 22);
  }

  lemma PrintedRange(s: Spec, x: int)
    ensures -M64 < Printed(s, x) < M64
  {
  }

  lemma CoreLength(s: Spec, sign: int, printed: string)
    ensures |CoreOf(s, sign, printed).text| <= 2 + |printed|
  {
  }

  /** Numeric text and its NUL fit the 32 characters of tmp. */
  lemma TextFitsTmp(s: Spec, a: Arg)
    requires a.PtrArg? ==> |a.text| < 30
    ensures |NumericPiece(s, a).text| + 1 <= 32
  {
    CoreLength(s, ArgSign(s, a), SprintfText(s, a));
    if a.IntArg? {
      PrintedRange(s, a.i);
      NumberTextLength(s.conv, Printed(s, a.i));
    }
  }
}
