/**
  What a format string means: directives as they are written, what they are read as, which
  arguments they take and what they print.  Nothing here depends on how the string is parsed;
  the lemmas say that module Formatter parses it that way.
  */
module FormatSpecs {
  import opened Wrappers
  import opened Sequences
  import opened Conversions
  import opened Formatter

  /** A width or a precision: left out, in decimal, or as an argument. */
  datatype Count = Missing | Decimal(n: nat) | Star

  datatype Directive = Directive(flags: string, width: Count, prec: Option<Count>, mod: Modifier, conv: char)

  function CountText(c: Count): string
  {
    match c
    case Missing => ""
    case Decimal(n) => Digits(n, 'd')
    case Star => "*"
  }

  function PrecText(prec: Option<Count>): string
  {
    if prec.None? then "" else "." + CountText(prec.value)
  }

  function ModText(m: Modifier): string
  {
    match m
    case Plain => ""
    case Short => "h"
    case Long => "l"
    case LongLong => "ll"
  }

  /** The directive as it stands in a format string. */
  function Text(d: Directive): string
  {
    "%" + (d.flags + (CountText(d.width) + (PrecText(d.prec) + (ModText(d.mod) + [d.conv]))))
  }

  predicate IsConversion(c: char)
  {
    c == '%' || c == 'c' || c == 's' || c == 'p' || c == 'd' || c == 'i' || c == 'u' || c == 'o' || c == 'x' || c == 'X'
    || c == 'D' || c == 'U' || c == 'O'
  }

  predicate AreFlags(flags: string)
  {
    forall c :: c in flags ==> c == '0' || c == '-' || c == '+' || c == ' ' || c == '#' || c == '\''
  }

  /** Flags in any order and number; counts fit an unsigned int, and a decimal width does not look like a flag. */
  predicate WellFormed(d: Directive)
  {
    && AreFlags(d.flags)
    && (d.width.Decimal? ==> 0 < d.width.n < 0x1_0000_0000)
    && (d.prec.Some? && d.prec.value.Decimal? ==> d.prec.value.n < 0x1_0000_0000)
    && IsConversion(d.conv)
  }

  /** An argument for `*`: an int that is passed as it is. */
  predicate IsInt(args: seq<Arg>, k: nat)
  {
    k < |args| && args[k].IntArg? && -0x8000_0000 <= args[k].i < 0x8000_0000
  }

  function WidthStars(d: Directive): nat
  {
    if d.width.Star? then 1 else 0
  }

  function Stars(d: Directive): nat
  {
    WidthStars(d) + if d.prec == Some(Star) then 1 else 0
  }

  predicate StarsGiven(d: Directive, args: seq<Arg>)
  {
    && (d.width.Star? ==> IsInt(args, 0))
    && (d.prec == Some(Star) ==> IsInt(args, WidthStars(d)))
  }

  /** The width as an int: negative for a `*` argument that asks for left adjustment. */
  function WidthOf(d: Directive, args: seq<Arg>): int
    requires StarsGiven(d, args)
  {
    match d.width
    case Missing => 0
    case Decimal(n) => n
    case Star => args[0].i
  }

  /** The precision, if there is one; a negative `*` argument counts as none. */
  function PrecOf(d: Directive, args: seq<Arg>): Option<nat>
    requires StarsGiven(d, args)
  {
    match d.prec
    case None => None
    case Some(Missing) => Some(0)
    case Some(Decimal(n)) => Some(n)
    case Some(Star) => var j := args[WidthStars(d)].i; if j < 0 then None else Some(j)
  }

  /** i is d, and D, U and O are ld, lu and lo. */
  function ConvOf(c: char): char
  {
    if c == 'i' || c == 'D' then 'd' else if c == 'U' then 'u' else if c == 'O' then 'o' else c
  }

  function Abs(x: int): nat
  {
    if x < 0 then -x else x
  }

  function Meaning(d: Directive, args: seq<Arg>): Spec
    requires StarsGiven(d, args)
  {
    var w, prec := WidthOf(d, args), PrecOf(d, args);
    Spec('0' in d.flags, '-' in d.flags || w < 0, '+' in d.flags || ' ' in d.flags, '+' !in d.flags, '#' in d.flags,
         Abs(w), prec.Some?, if prec.Some? then prec.value else 0,
         if d.conv == 'D' || d.conv == 'U' || d.conv == 'O' then Long else d.mod, ConvOf(d.conv))
  }

  // ---------------------------------------------------------------------------------
  // The parser reads that back

  /** fmt has s at p. */
  ghost predicate Has(fmt: string, p: nat, s: string)
  {
    p + |s| <= |fmt| && forall i: nat {:trigger HasChar(fmt, p, s, i)} :: HasChar(fmt, p, s, i)
  }

  predicate HasChar(fmt: string, p: nat, s: string, i: nat)
  {
    i < |s| ==> At(fmt, p + i) == s[i]
  }

  lemma HasTwo(fmt: string, p: nat, a: string, b: string)
    requires Has(fmt, p, a + b)
    ensures Has(fmt, p, a) && Has(fmt, p + |a|, b)
  {
    forall i: nat ensures HasChar(fmt, p, a, i) {
      assert HasChar(fmt, p, a + b, i);
    }
    var q := p + |a|;
    forall i: nat ensures HasChar(fmt, q, b, i) {
      assert HasChar(fmt, p, a + b, |a| + i);
    }
  }

  lemma HasAt(fmt: string, p: nat, s: string, i: nat)
    requires Has(fmt, p, s) && i < |s|
    ensures At(fmt, p + i) == s[i]
  {
    assert HasChar(fmt, p, s, i);
  }

  lemma StartsWith(s: string, tail: string)
    ensures Has(s + tail, 0, s)
  {
    forall i: nat ensures HasChar(s + tail, 0, s, i) {
    }
  }

  function WithFlags(s: Spec, flags: string): Spec
  {
    s.(zero := s.zero || '0' in flags, left := s.left || '-' in flags, sign := s.sign || '+' in flags || ' ' in flags,
       space := s.space && '+' !in flags, alt := s.alt || '#' in flags)
  }

  lemma {:induction false} FlagsRead(fmt: string, q: Scan, flags: string)
    requires Has(fmt, q.p, flags) && !IsFlag(At(fmt, q.p + |flags|))
    requires AreFlags(flags)
    ensures Flags(fmt, q) == Scan(WithFlags(q.s, flags), q.p + |flags|, q.args)
    decreases |flags|
  {
    if flags != "" {
      var c, rest := flags[0], flags[1..];
      HasAt(fmt, q.p, flags, 0);
      assert flags == [c] + rest;
      HasTwo(fmt, q.p, [c], rest);
      assert c in flags && forall x :: x in rest ==> x in flags;
      FlagsRead(fmt, q.(s := AddFlag(q.s, c), p := q.p + 1), rest);
      OneMoreFlag(q.s, c, rest);
    }
  }

  lemma OneMoreFlag(s: Spec, c: char, rest: string)
    requires c == '0' || c == '-' || c == '+' || c == ' ' || c == '#' || c == '\''
    ensures WithFlags(AddFlag(s, c), rest) == WithFlags(s, [c] + rest)
  {
    assert forall x :: x in [c] + rest <==> x == c || x in rest;
  }

  /** What a stretch of digits is read as. */
  function ReadAs(digits: string, n: nat): nat
  {
    if digits == "" then n
    else
      var c := digits[|digits| - 1];
      (10 * ReadAs(digits[..|digits| - 1], n) + if IsDigit(c) then (c - '0') as nat else 0) % 0x1_0000_0000
  }

  lemma {:induction false} NumberRead(fmt: string, p: nat, digits: string, n: nat)
    requires Has(fmt, p, digits) && forall i :: 0 <= i < |digits| ==> IsDigit(digits[i])
    ensures Number(fmt, p, n) == Number(fmt, p + |digits|, ReadAs(digits, n))
    decreases |digits|
  {
    if digits != "" {
      var front := digits[..|digits| - 1];
      assert digits == front + [digits[|digits| - 1]];
      HasTwo(fmt, p, front, [digits[|digits| - 1]]);
      NumberRead(fmt, p, front, n);
      HasAt(fmt, p, digits, |digits| - 1);
    }
  }

  lemma {:induction false} DecimalRead(n: nat)
    requires n < 0x1_0000_0000
    ensures var d := Digits(n, 'd');
      ReadAs(d, 0) == n && (forall i :: 0 <= i < |d| ==> IsDigit(d[i]))
    decreases n
  {
    if n >= 10 {
      Divided(n, 10);
      DecimalRead(n / 10);
      DecimalDigit(n % 10);
      assert Digits(n, 'd') == Digits(n / 10, 'd') + [DigitChar(n % 10, 'd')];
      ReadOneMore(Digits(n / 10, 'd'), DigitChar(n % 10, 'd'), n / 10, n % 10);
    } else {
      DecimalDigit(n);
      assert Digits(n, 'd') == "" + [DigitChar(n, 'd')];
      ReadOneMore("", DigitChar(n, 'd'), 0, n);
    }
  }

  lemma ReadOneMore(front: string, c: char, q: nat, r: nat)
    requires ReadAs(front, 0) == q && IsDigit(c) && (c - '0') as nat == r && 10 * q + r < 0x1_0000_0000
    ensures ReadAs(front + [c], 0) == 10 * q + r
  {
    assert (front + [c])[..|front|] == front;
  }

  lemma DecimalDigit(d: nat)
    requires d < 10
    ensures var c := DigitChar(d, 'd'); IsDigit(c) && (c - '0') as nat == d
  {
  }

  lemma NumberIs(fmt: string, p: nat, n: nat)
    requires n < 0x1_0000_0000 && Has(fmt, p, Digits(n, 'd')) && !IsDigit(At(fmt, p + |Digits(n, 'd')|))
    ensures Number(fmt, p, 0) == (n, p + |Digits(n, 'd')|)
  {
    DecimalRead(n);
    NumberRead(fmt, p, Digits(n, 'd'), 0);
  }

  lemma WidthRead(fmt: string, q: Scan, d: Directive)
    requires WellFormed(d) && StarsGiven(d, q.args) && Has(fmt, q.p, CountText(d.width))
    requires !IsDigit(At(fmt, q.p + |CountText(d.width)|)) && (d.width.Missing? ==> At(fmt, q.p) != '*')
    ensures var w := WidthOf(d, q.args);
      Width(fmt, q) == Scan(q.s.(width := Abs(w), left := q.s.left || w < 0), q.p + |CountText(d.width)|, q.args[WidthStars(d)..])
  {
    match d.width
    case Missing => assert q.args[0..] == q.args;
    case Decimal(n) =>
      NumberIs(fmt, q.p, n);
      HasAt(fmt, q.p, Digits(n, 'd'), 0);
      DecimalRead(n);
      assert q.args[0..] == q.args;
    case Star => HasAt(fmt, q.p, "*", 0);
  }

  lemma PrecisionRead(fmt: string, q: Scan, d: Directive, args: seq<Arg>)
    requires WellFormed(d) && StarsGiven(d, args) && Has(fmt, q.p, PrecText(d.prec)) && q.args == args[WidthStars(d)..]
    requires !IsDigit(At(fmt, q.p + |PrecText(d.prec)|)) && At(fmt, q.p + |PrecText(d.prec)|) != '*'
    requires !q.s.given && q.s.prec == 0 && (d.prec.None? ==> At(fmt, q.p) != '.')
    ensures var prec := PrecOf(d, args);
      Precision(fmt, q) == Scan(q.s.(given := prec.Some?, prec := if prec.Some? then prec.value else 0),
                                q.p + |PrecText(d.prec)|, args[Stars(d)..])
  {
    if d.prec.Some? {
      HasAt(fmt, q.p, PrecText(d.prec), 0);
      HasTwo(fmt, q.p, ".", CountText(d.prec.value));
      if d.prec.value.Star? {
        HasAt(fmt, q.p + 1, "*", 0);
        StarPrecision(fmt, q);
      } else {
        DigitsOfPrecision(fmt, q.p + 1, d.prec.value);
      }
    }
  }

  lemma StarPrecision(fmt: string, q: Scan)
    requires At(fmt, q.p) == '.' && At(fmt, q.p + 1) == '*' && IsInt(q.args, 0)
    ensures var j := q.args[0].i;
      Precision(fmt, q) == Scan(q.s.(given := j >= 0, prec := if j >= 0 then j else 0), q.p + 2, q.args[1..])
  {
  }

  lemma DigitsOfPrecision(fmt: string, p: nat, c: Count)
    requires !c.Star? && (c.Decimal? ==> c.n < 0x1_0000_0000) && Has(fmt, p, CountText(c)) && !IsDigit(At(fmt, p + |CountText(c)|))
    requires c.Missing? ==> At(fmt, p) != '*'
    ensures At(fmt, p) != '*' && Number(fmt, p, 0) == (if c.Decimal? then c.n else 0, p + |CountText(c)|)
  {
    if c.Decimal? {
      StartsWithDigit(fmt, p, c.n);
      NumberIs(fmt, p, c.n);
    }
  }

  lemma StartsWithDigit(fmt: string, p: nat, n: nat)
    requires n < 0x1_0000_0000 && Has(fmt, p, Digits(n, 'd'))
    ensures IsDigit(At(fmt, p))
  {
    DecimalRead(n);
    HasAt(fmt, p, Digits(n, 'd'), 0);
  }

  lemma ModRead(fmt: string, q: Scan, m: Modifier, c: char)
    requires Has(fmt, q.p, ModText(m) + [c]) && q.s.mod == Plain && c != 'h' && c != 'l'
    ensures LengthModifier(fmt, q) == q.(s := q.s.(mod := m), p := q.p + |ModText(m)|)
    ensures At(fmt, q.p + |ModText(m)|) == c
  {
    var s := ModText(m) + [c];
    HasAt(fmt, q.p, s, 0);
    HasAt(fmt, q.p, s, |s| - 1);
    if |s| > 1 { HasAt(fmt, q.p, s, 1); }
  }

  function AfterFlags(d: Directive): nat
  {
    1 + |d.flags|
  }

  function AfterWidth(d: Directive): nat
  {
    AfterFlags(d) + |CountText(d.width)|
  }

  function AfterPrec(d: Directive): nat
  {
    AfterWidth(d) + |PrecText(d.prec)|
  }

  /** Where the parts of a directive are. */
  lemma Places(fmt: string, p: nat, d: Directive)
    requires Has(fmt, p, Text(d))
    ensures Placed(fmt, p, d)
    ensures |Text(d)| == AfterPrec(d) + |ModText(d.mod)| + 1
  {
    PartsPlaced(fmt, p, d.flags, CountText(d.width), PrecText(d.prec), ModText(d.mod) + [d.conv]);
  }

  lemma PartsPlaced(fmt: string, p: nat, flags: string, width: string, prec: string, tail: string)
    requires Has(fmt, p, "%" + (flags + (width + (prec + tail))))
    ensures Has(fmt, p + 1, flags) && Has(fmt, p + 1 + |flags|, width) && Has(fmt, p + 1 + |flags| + |width|, prec)
    ensures Has(fmt, p + 1 + |flags| + |width| + |prec|, tail)
  {
    HasTwo(fmt, p, "%", flags + (width + (prec + tail)));
    HasTwo(fmt, p + 1, flags, width + (prec + tail));
    HasTwo(fmt, p + 1 + |flags|, width, prec + tail);
    HasTwo(fmt, p + 1 + |flags| + |width|, prec, tail);
  }

  /** The parts of a directive are at their places. */
  ghost predicate Placed(fmt: string, p: nat, d: Directive)
  {
    && Has(fmt, p + 1, d.flags) && Has(fmt, p + AfterFlags(d), CountText(d.width)) && Has(fmt, p + AfterWidth(d), PrecText(d.prec))
    && Has(fmt, p + AfterPrec(d), ModText(d.mod) + [d.conv])
  }

  /** The characters after the flags, after the width and after the precision. */
  lemma AfterPrecision(fmt: string, p: nat, d: Directive)
    requires WellFormed(d) && Placed(fmt, p, d)
    ensures IsTail(At(fmt, p + AfterPrec(d)))
    ensures if d.prec.Some? then At(fmt, p + AfterWidth(d)) == '.' else At(fmt, p + AfterWidth(d)) == At(fmt, p + AfterPrec(d))
  {
    HasAt(fmt, p + AfterPrec(d), ModText(d.mod) + [d.conv], 0);
    if d.prec.Some? { HasAt(fmt, p + AfterWidth(d), PrecText(d.prec), 0); }
  }

  lemma AfterTheFlags(fmt: string, p: nat, d: Directive)
    requires WellFormed(d) && Placed(fmt, p, d)
    ensures !IsFlag(At(fmt, p + AfterFlags(d))) && (d.width.Missing? ==> At(fmt, p + AfterFlags(d)) != '*')
  {
    AfterPrecision(fmt, p, d);
    if d.width.Decimal? {
      FirstDigit(d.width.n);
      HasAt(fmt, p + AfterFlags(d), Digits(d.width.n, 'd'), 0);
    } else if d.width.Star? {
      HasAt(fmt, p + AfterFlags(d), "*", 0);
    }
  }

  lemma AfterTheWidth(fmt: string, p: nat, d: Directive)
    requires WellFormed(d) && Placed(fmt, p, d)
    ensures !IsDigit(At(fmt, p + AfterWidth(d)))
  {
    AfterPrecision(fmt, p, d);
  }

  lemma FirstDigit(n: nat)
    requires 0 < n < 0x1_0000_0000
    ensures IsDigit(Digits(n, 'd')[0]) && Digits(n, 'd')[0] != '0'
  {
    DecimalRead(n);
  }

  /** What a modifier or a conversion can start with. */
  predicate IsTail(c: char)
  {
    !IsFlag(c) && !IsDigit(c) && c != '*' && c != '.'
  }

  function SpecAfterWidth(d: Directive, args: seq<Arg>): Spec
    requires StarsGiven(d, args)
  {
    var w, s := WidthOf(d, args), WithFlags(NO_FLAGS, d.flags);
    s.(width := Abs(w), left := s.left || w < 0)
  }

  lemma FlagsAndWidthRead(fmt: string, p: nat, d: Directive, args: seq<Arg>)
    requires WellFormed(d) && StarsGiven(d, args) && Placed(fmt, p, d)
    ensures Width(fmt, Flags(fmt, Scan(NO_FLAGS, p + 1, args))) == Scan(SpecAfterWidth(d, args), p + AfterWidth(d), args[WidthStars(d)..])
  {
    var q := Scan(WithFlags(NO_FLAGS, d.flags), p + AfterFlags(d), args);
    assert Flags(fmt, Scan(NO_FLAGS, p + 1, args)) == q by {
      AfterTheFlags(fmt, p, d);
      FlagsRead(fmt, Scan(NO_FLAGS, p + 1, args), d.flags);
    }
    AfterTheFlags(fmt, p, d);
    AfterTheWidth(fmt, p, d);
    WidthRead(fmt, q, d);
  }

  function SpecAfterPrec(d: Directive, args: seq<Arg>): Spec
    requires StarsGiven(d, args)
  {
    var prec := PrecOf(d, args);
    SpecAfterWidth(d, args).(given := prec.Some?, prec := if prec.Some? then prec.value else 0)
  }

  lemma PrecisionAndModRead(fmt: string, p: nat, d: Directive, args: seq<Arg>)
    requires WellFormed(d) && StarsGiven(d, args) && Placed(fmt, p, d)
    ensures var q := Scan(SpecAfterWidth(d, args), p + AfterWidth(d), args[WidthStars(d)..]);
      LengthModifier(fmt, Precision(fmt, q)) ==
        Scan(SpecAfterPrec(d, args).(mod := d.mod), p + AfterPrec(d) + |ModText(d.mod)|, args[Stars(d)..])
    ensures At(fmt, p + AfterPrec(d) + |ModText(d.mod)|) == d.conv
  {
    AfterPrecision(fmt, p, d);
    PrecisionRead(fmt, Scan(SpecAfterWidth(d, args), p + AfterWidth(d), args[WidthStars(d)..]), d, args);
    ModRead(fmt, Scan(SpecAfterPrec(d, args), p + AfterPrec(d), args[Stars(d)..]), d.mod, d.conv);
  }

  lemma ConversionRead(fmt: string, q: Scan, d: Directive, args: seq<Arg>)
    requires StarsGiven(d, args) && IsConversion(d.conv)
    requires q.s == SpecAfterPrec(d, args).(mod := d.mod) && At(fmt, q.p) == d.conv
    ensures Conversion(fmt, q) == q.(s := Meaning(d, args))
  {
  }

  /** Parsing a directive finds what it means, stops at its last character, and takes the arguments of its stars. */
  lemma ReadsBack(fmt: string, p: nat, d: Directive, args: seq<Arg>)
    requires WellFormed(d) && StarsGiven(d, args) && Has(fmt, p, Text(d))
    ensures Parse(fmt, p + 1, args) == Scan(Meaning(d, args), p + |Text(d)| - 1, args[Stars(d)..])
    ensures At(fmt, p + |Text(d)| - 1) == d.conv && At(fmt, p) == '%'
  {
    Places(fmt, p, d);
    HasAt(fmt, p, Text(d), 0);
    FlagsAndWidthRead(fmt, p, d, args);
    PrecisionAndModRead(fmt, p, d, args);
    ConversionRead(fmt, Scan(SpecAfterPrec(d, args).(mod := d.mod), p + |Text(d)| - 1, args[Stars(d)..]), d, args);
  }

  // ---------------------------------------------------------------------------------
  // What a directive prints, and which arguments it takes

  /** One for each star, and one for itself, except that %% has none. */
  function Takes(d: Directive): nat
  {
    Stars(d) + if d.conv == '%' then 0 else 1
  }

  /** The directive d stands at p, and its arguments are there. */
  ghost predicate Stands(fmt: string, p: nat, d: Directive, args: seq<Arg>)
  {
    Has(fmt, p, Text(d)) && WellFormed(d) && StarsGiven(d, args) && |args| >= Takes(d)
  }

  /** It prints `out`, and what comes after it is printed with the arguments that it leaves. */
  ghost predicate Prints(fmt: string, p: nat, d: Directive, args: seq<Arg>, out: string)
    requires |args| >= Takes(d)
  {
    Format(fmt, p, args) == out + Format(fmt, p + |Text(d)|, args[Takes(d)..])
  }

  lemma DirectivePrints(fmt: string, p: nat, d: Directive, args: seq<Arg>)
    requires Stands(fmt, p, d, args)
    ensures Prints(fmt, p, d, args, Output(Convert(Meaning(d, args), args[Stars(d)..])))
  {
    ReadsBack(fmt, p, d, args);
    ArgsLeft(d, args);
    StepTo(fmt, p, args, Scan(Meaning(d, args), p + |Text(d)| - 1, args[Stars(d)..]), p + |Text(d)|);
  }

  /** One step of formatting. */
  lemma StepTo(fmt: string, p: nat, args: seq<Arg>, q: Scan, next: nat)
    requires At(fmt, p) == '%' && q == Parse(fmt, p + 1, args) && next == Past(fmt, q.p)
    ensures Format(fmt, p, args) == Output(Convert(q.s, q.args)) + Format(fmt, next, ArgsAfter(q.s, q.args))
  {
  }

  lemma ArgsLeft(d: Directive, args: seq<Arg>)
    requires IsConversion(d.conv) && StarsGiven(d, args) && |args| >= Takes(d)
    ensures ArgsAfter(Meaning(d, args), args[Stars(d)..]) == args[Takes(d)..]
  {
  }

  /** `out` is `text` with blanks on one side up to the width. */
  predicate Padded(out: string, text: string, width: nat, left: bool)
  {
    && |out| == (if width > |text| then width else |text|)
    && if left then text <= out && forall i :: |text| <= i < |out| ==> out[i] == ' '
       else out[|out| - |text|..] == text && forall i :: 0 <= i < |out| - |text| ==> out[i] == ' '
  }

  /** %s prints the argument up to the precision, if there is one, and nothing for NULL. */
  lemma StringPrints(fmt: string, p: nat, d: Directive, args: seq<Arg>) returns (out: string)
    requires Stands(fmt, p, d, args) && d.conv == 's' && args[Stars(d)].StrArg?
    requires args[Stars(d)].s.Some? ==> '\0' !in args[Stars(d)].s.value
    ensures Prints(fmt, p, d, args, out)
    ensures var t := if args[Stars(d)].s.Some? then args[Stars(d)].s.value else "";
      var prec := PrecOf(d, args);
      var n := if prec.Some? && prec.value < |t| then prec.value else |t|;
      Padded(out, t[..n], Abs(WidthOf(d, args)), '-' in d.flags || WidthOf(d, args) < 0)
  {
    var s, rest := Meaning(d, args), args[Stars(d)..];
    out := Output(Convert(s, rest));
    DirectivePrints(fmt, p, d, args);
    MeaningIs(d, args);
    StringConverts(s, rest);
  }

  lemma MeaningIs(d: Directive, args: seq<Arg>)
    requires StarsGiven(d, args)
    ensures var s, prec := Meaning(d, args), PrecOf(d, args);
      && s.width == Abs(WidthOf(d, args))
      && s.left == ('-' in d.flags || WidthOf(d, args) < 0)
      && s.given == prec.Some? && (prec.Some? ==> s.prec == prec.value)
      && s.conv == ConvOf(d.conv)
  {
  }

  lemma StringConverts(s: Spec, args: seq<Arg>)
    requires s.conv == 's' && args != [] && args[0].StrArg? && (args[0].s.Some? ==> '\0' !in args[0].s.value)
    ensures var t := if args[0].s.Some? then args[0].s.value else "";
      Padded(Output(Convert(s, args)), t[..if s.given && s.prec < |t| then s.prec else |t|], s.width, s.left)
  {
    var t := if args[0].s.Some? then args[0].s.value else "";
    StrlenIs(t);
    var text := t[..if s.given && s.prec < |t| then s.prec else |t|];
    assert Convert(s, args) == TextPiece(s, text);
    TextLayout(s, text);
  }

  lemma {:induction false} StrlenIs(t: string)
    requires '\0' !in t
    ensures Strlen(t) == |t|
  {
    if t != "" {
      StrlenIs(t[1..]);
    }
  }

  /** %c prints one character, the argument modulo 256. */
  lemma CharPrints(fmt: string, p: nat, d: Directive, args: seq<Arg>) returns (out: string)
    requires Stands(fmt, p, d, args) && d.conv == 'c' && args[Stars(d)].IntArg?
    ensures Prints(fmt, p, d, args, out)
    ensures Padded(out, [(args[Stars(d)].i % 256) as char], Abs(WidthOf(d, args)), '-' in d.flags || WidthOf(d, args) < 0)
  {
    var s, rest := Meaning(d, args), args[Stars(d)..];
    out := Output(Convert(s, rest));
    DirectivePrints(fmt, p, d, args);
    MeaningIs(d, args);
    CharConverts(s, rest);
  }

  lemma CharConverts(s: Spec, args: seq<Arg>)
    requires s.conv == 'c' && args != [] && args[0].IntArg?
    ensures Padded(Output(Convert(s, args)), [(args[0].i % 256) as char], s.width, s.left)
  {
    TextLayout(s, [(args[0].i % 256) as char]);
  }

  /** %% prints a %, in a field like any other. */
  lemma PercentPrints(fmt: string, p: nat, d: Directive, args: seq<Arg>) returns (out: string)
    requires Stands(fmt, p, d, args) && d.conv == '%'
    ensures Prints(fmt, p, d, args, out)
    ensures Padded(out, "%", Abs(WidthOf(d, args)), '-' in d.flags || WidthOf(d, args) < 0)
  {
    var s, rest := Meaning(d, args), args[Stars(d)..];
    out := Output(Convert(s, rest));
    DirectivePrints(fmt, p, d, args);
    MeaningIs(d, args);
    PercentConverts(s, rest);
  }

  lemma PercentConverts(s: Spec, args: seq<Arg>)
    requires s.conv == '%'
    ensures Padded(Output(Convert(s, args)), "%", s.width, s.left)
  {
    TextLayout(s, "%");
  }

  /** %p prints what sprintf makes of the pointer, if there is neither a precision nor a 0 flag. */
  lemma PointerPrints(fmt: string, p: nat, d: Directive, args: seq<Arg>) returns (out: string)
    requires Stands(fmt, p, d, args) && d.conv == 'p' && args[Stars(d)].PtrArg? && |args[Stars(d)].text| > 2 && args[Stars(d)].text[0] != '-'
    requires PrecOf(d, args).None? && '0' !in d.flags
    ensures Prints(fmt, p, d, args, out)
    ensures Padded(out, args[Stars(d)].text, Abs(WidthOf(d, args)), '-' in d.flags || WidthOf(d, args) < 0)
  {
    var s, rest := Meaning(d, args), args[Stars(d)..];
    out := Output(Convert(s, rest));
    DirectivePrints(fmt, p, d, args);
    MeaningIs(d, args);
    PointerConverts(s, rest);
  }

  lemma PointerConverts(s: Spec, args: seq<Arg>)
    requires s.conv == 'p' && !s.given && !s.zero && args != [] && args[0].PtrArg? && |args[0].text| > 2 && args[0].text[0] != '-'
    ensures Padded(Output(Convert(s, args)), args[0].text, s.width, s.left)
  {
    var c := Convert(s, args);
    assert c.text == args[0].text && c.zeros == 0 && !c.zeroPad && c.left == s.left && c.width == s.width;
    PieceLayout(c);
  }

  lemma PieceLayout(c: Piece)
    requires c.split <= |c.text| && c.zeros == 0 && !c.zeroPad
    ensures Padded(Output(c), c.text, c.width, c.left)
  {
    var fill := Monus(c.width, |c.text|);
    OutputParts(c, if c.left then "" else Rep(' ', fill), c.text, if c.left then Rep(' ', fill) else "");
  }

  /** A number is printed as ISO C99 says, exactly if its h is harmless or the harm does not show. */
  lemma NumberPrintsIff(fmt: string, p: nat, d: Directive, args: seq<Arg>)
    requires Stands(fmt, p, d, args) && IsNumber(ConvOf(d.conv)) && args[Stars(d)].IntArg?
    ensures var s, x := Meaning(d, args), args[Stars(d)].i;
      Prints(fmt, p, d, args, C99(s, Printed(s, x))) <==> ShortIsHarmless(s, x) || ShortIsHidden(s, x)
  {
    var s, rest := Meaning(d, args), args[Stars(d)..];
    var out := Output(Convert(s, rest));
    MeaningIs(d, args);
    DirectivePrints(fmt, p, d, args);
    NumberConverts(s, rest);
    PrintsOnly(fmt, p, d, args, out, C99(s, Printed(s, args[Stars(d)].i)));
  }

  lemma NumberConverts(s: Spec, args: seq<Arg>)
    requires IsNumber(s.conv) && args != [] && args[0].IntArg?
    ensures Output(Convert(s, args)) == C99(s, Printed(s, args[0].i)) <==> ShortIsHarmless(s, args[0].i) || ShortIsHidden(s, args[0].i)
  {
    NumberConvertsIff(s, args);
  }

  lemma PrintsOnly(fmt: string, p: nat, d: Directive, args: seq<Arg>, out: string, other: string)
    requires |args| >= Takes(d) && Prints(fmt, p, d, args, out)
    ensures Prints(fmt, p, d, args, other) <==> out == other
  {
    SameInFront(out, other, Format(fmt, p + |Text(d)|, args[Takes(d)..]));
  }

  lemma SameInFront(a: string, b: string, rest: string)
    ensures a + rest == b + rest <==> a == b
  {
    if a + rest == b + rest {
      assert |a + rest| == |a| + |rest| && |b + rest| == |b| + |rest|;
      assert a == (a + rest)[..|a|] == (b + rest)[..|b|] == b;
    }
  }

  /** In particular, a plain %s prints its argument. */
  lemma PlainString(t: string)
    requires '\0' !in t
    ensures Format("%s", 0, [StrArg(Some(t))]) == t
  {
    var d := Directive("", Missing, None, Plain, 's');
    assert Text(d) == "%s";
    StartsWith("%s", "");
    assert "%s" + "" == "%s";
    var out := StringPrints("%s", 0, d, [StrArg(Some(t))]);
    assert t[..|t|] == t == out;
  }
}
