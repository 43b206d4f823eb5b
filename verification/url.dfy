/**
  URL escaping (url_escape and url_unescape of src/httprotocol.c).  Characters are bytes.
  */
module Url {
  import opened Sequences

  /** All characters are bytes. */
  predicate Octets(s: string)
  {
    forall i :: 0 <= i < |s| ==> s[i] as int < 256
  }

  predicate Plain(c: char)
  {
    '0' <= c <= '9' || 'a' <= c <= 'z' || 'A' <= c <= 'Z'
  }

  predicate IsHex(c: char)
  {
    '0' <= c <= '9' || 'a' <= c <= 'f' || 'A' <= c <= 'F'
  }

  function HexDigit(d: nat): char
    requires d < 16
  {
    if d < 10 then '0' + d as char else 'A' + (d - 10) as char
  }

  function HexValue(c: char): (d: nat)
    requires IsHex(c)
    ensures d < 16
  {
    if c <= '9' then (c - '0') as nat else if c <= 'F' then (c - 'A') as nat + 10 else (c - 'a') as nat + 10
  }

  function EscapeChar(c: char): (r: string)
    requires c as int < 256
    ensures |r| == if Plain(c) then 1 else 3
  {
    if Plain(c) then [c] else ['%', HexDigit(c as int / 16), HexDigit(c as int % 16)]
  }

  function Escape(s: string): string
    requires Octets(s)
  {
    if s == "" then "" else Escape(s[..|s| - 1]) + EscapeChar(s[|s| - 1])
  }

  /** Does an escaped byte start here? */
  predicate Escaped(s: string)
  {
    |s| >= 3 && s[0] == '%' && IsHex(s[1]) && IsHex(s[2])
  }

  function FirstChar(s: string): (c: char)
    requires s != ""
  {
    if Escaped(s) then (16 * HexValue(s[1]) + HexValue(s[2])) as char else s[0]
  }

  function AfterFirst(s: string): (r: string)
    requires s != ""
    ensures |r| < |s|
  {
    if Escaped(s) then s[3..] else s[1..]
  }

  function Unescape(s: string): string
  {
    if s == "" then "" else [FirstChar(s)] + Unescape(AfterFirst(s))
  }

  // ---------------------------------------------------------------------------------
  // Round trips

  lemma HexDigits(d: nat)
    requires d < 16
    ensures IsHex(HexDigit(d)) && HexValue(HexDigit(d)) == d && !('a' <= HexDigit(d) <= 'f')
  {
  }

  lemma HexValues(c: char)
    requires IsHex(c)
    ensures HexDigit(HexValue(c)) == c <==> !('a' <= c <= 'f')
  {
  }

  /** An escaped byte is read back, whatever follows it. */
  lemma EscapedChar(c: char, rest: string)
    requires c as int < 256 && !Plain(c)
    ensures var s := EscapeChar(c) + rest; Escaped(s) && FirstChar(s) == c && AfterFirst(s) == rest
  {
    HexDigits(c as int / 16);
    HexDigits(c as int % 16);
    var s := EscapeChar(c) + rest;
    assert s[0] == '%' && s[1] == HexDigit(c as int / 16) && s[2] == HexDigit(c as int % 16);
    assert s[3..] == rest;
  }

  lemma UnescapeChar(c: char, rest: string)
    requires c as int < 256
    ensures Unescape(EscapeChar(c) + rest) == [c] + Unescape(rest)
  {
    var s := EscapeChar(c) + rest;
    if Plain(c) {
      assert s[0] == c && s[1..] == rest;
    } else {
      EscapedChar(c, rest);
    }
  }

  lemma {:induction false} UnescapeEscapeWith(s: string, rest: string)
    requires Octets(s)
    ensures Unescape(Escape(s) + rest) == s + Unescape(rest)
  {
    if s == "" {
      assert Escape(s) + rest == rest;
    } else {
      var front, c := s[..|s| - 1], s[|s| - 1];
      Reassociate(Escape(front), EscapeChar(c), rest);
      UnescapeEscapeWith(front, EscapeChar(c) + rest);
      UnescapeChar(c, rest);
      Reassociate(front, [c], Unescape(rest));
      assert front + [c] == s;
    }
  }

  /** Unescaping undoes escaping, for every byte string. */
  lemma RoundTrip(s: string)
    requires Octets(s)
    ensures Unescape(Escape(s)) == s
  {
    UnescapeEscapeWith(s, "");
    assert Escape(s) + "" == Escape(s);
  }

  const LOWER := "0123456789abcdef"
  const UPPER := "0123456789ABCDEF"

  /** Hexadecimal digits count the same in either case: %c3 and %C3 are the same byte. */
  lemma UnescapeHex(a: nat, b: nat, hi: char, lo: char, rest: string)
    requires a < 16 && (hi == LOWER[a] || hi == UPPER[a])
    requires b < 16 && (lo == LOWER[b] || lo == UPPER[b])
    ensures Unescape(['%', hi, lo] + rest) == [(16 * a + b) as char] + Unescape(rest)
  {
    HexValueIs(hi, a);
    HexValueIs(lo, b);
    var s := ['%', hi, lo] + rest;
    assert s[0] == '%' && s[1] == hi && s[2] == lo && s[3..] == rest;
  }

  lemma HexValueIs(c: char, d: nat)
    requires d < 16 && (c == LOWER[d] || c == UPPER[d])
    ensures IsHex(c) && HexValue(c) == d
  {
  }

  /** Anything but a % with two hexadecimal digits after it stays. */
  lemma UnescapeOther(s: string)
    requires s != "" && !(|s| >= 3 && s[0] == '%' && (s[1] in LOWER || s[1] in UPPER) && (s[2] in LOWER || s[2] in UPPER))
    ensures Unescape(s) == [s[0]] + Unescape(s[1..])
  {
    if Escaped(s) {
      HexIsListed(s[1]);
      HexIsListed(s[2]);
    }
  }

  lemma HexIsListed(c: char)
    requires IsHex(c)
    ensures c in LOWER || c in UPPER
  {
    assert if c <= '9' then c == LOWER[c as int - '0' as int] else if c <= 'F' then c == UPPER[c as int - 'A' as int + 10] else c == LOWER[c as int - 'a' as int + 10];
  }

  /** Each byte is written as it is if it is a letter or a digit, and as % with two upper-case digits if not. */
  lemma EscapeByte(s: string, b: nat)
    requires Octets(s) && b < 256
    ensures Octets(s + [b as char])
    ensures var c := b as char;
      var kept := 48 <= b <= 57 || 65 <= b <= 90 || 97 <= b <= 122;
      Escape(s + [c]) == Escape(s) + if kept then [c] else ['%', UPPER[b / 16], UPPER[b % 16]]
  {
    EscapeLast(s, b as char);
    HexDigitIs(b / 16);
    HexDigitIs(b % 16);
  }

  lemma HexDigitIs(d: nat)
    requires d < 16
    ensures HexDigit(d) == UPPER[d]
  {
  }

  /** An escaped string has letters, digits and % only. */
  lemma {:induction false} EscapeIsClean(s: string)
    requires Octets(s)
    ensures forall i :: 0 <= i < |Escape(s)| ==> Plain(Escape(s)[i]) || Escape(s)[i] == '%'
    ensures |s| <= |Escape(s)| <= 3 * |s|
  {
    if s != "" {
      EscapeIsClean(s[..|s| - 1]);
    }
  }

  /** The escapings: letters, digits, and %XX with upper-case hex digits for other bytes. */
  predicate Canonical(t: string)
  {
    t == "" ||
    (if Escaped(t) then
       !Plain(FirstChar(t)) && !('a' <= t[1] <= 'f') && !('a' <= t[2] <= 'f') && Canonical(AfterFirst(t))
     else Plain(t[0]) && Canonical(AfterFirst(t)))
  }

  lemma EscapeLast(s: string, c: char)
    requires Octets(s) && c as int < 256
    ensures Octets(s + [c]) && Escape(s + [c]) == Escape(s) + EscapeChar(c)
  {
    assert (s + [c])[..|s|] == s;
  }

  lemma {:induction false} EscapeFirst(c: char, s: string)
    requires c as int < 256 && Octets(s)
    ensures Octets([c] + s) && Escape([c] + s) == EscapeChar(c) + Escape(s)
  {
    if s == "" {
      EscapeLast("", c);
      assert "" + [c] == [c] + s;
    } else {
      var front, last := s[..|s| - 1], s[|s| - 1];
      EscapeFirst(c, front);
      EscapeLast([c] + front, last);
      EscapeLast(front, last);
      Reassociate([c], front, [last]);
      assert front + [last] == s;
      Reassociate(EscapeChar(c), Escape(front), EscapeChar(last));
    }
  }

  lemma {:induction false} UnescapeOctets(t: string)
    requires Octets(t)
    ensures Octets(Unescape(t))
  {
    if t != "" {
      UnescapeOctets(AfterFirst(t));
    }
  }

  lemma EscapeOfEscaped(t: string)
    requires Escaped(t)
    ensures var c := FirstChar(t);
      c as int < 256 &&
      (EscapeChar(c) == t[..3] <==> !Plain(c) && !('a' <= t[1] <= 'f') && !('a' <= t[2] <= 'f'))
  {
    HexValues(t[1]);
    HexValues(t[2]);
    var c := FirstChar(t);
    assert c as int / 16 == HexValue(t[1]) && c as int % 16 == HexValue(t[2]);
    if !Plain(c) {
      assert EscapeChar(c) == ['%', HexDigit(HexValue(t[1])), HexDigit(HexValue(t[2]))];
      assert t[..3] == ['%', t[1], t[2]];
      assert EscapeChar(c)[1] == HexDigit(HexValue(t[1])) && EscapeChar(c)[2] == HexDigit(HexValue(t[2]));
    }
  }

  /** Strings with the same rest are equal exactly if their beginnings are; and the other way round. */
  lemma Beginnings(a: string, b: string, c: string, d: string)
    requires |a| == |c|
    ensures a + b == c + d <==> a == c && b == d
  {
    var x, y := a + b, c + d;
    assert x[..|a|] == a && x[|a|..] == b && y[..|a|] == c && y[|a|..] == d;
  }

  /** Escaping undoes unescaping exactly for the escapings. */
  lemma {:induction false} EscapeUnescapeIff(t: string)
    requires Octets(t)
    ensures Octets(Unescape(t))
    ensures Escape(Unescape(t)) == t <==> Canonical(t)
  {
    UnescapeOctets(t);
    if t != "" {
      var c, rest := FirstChar(t), AfterFirst(t);
      EscapeUnescapeIff(rest);
      EscapeFirst(c, Unescape(rest));
      FirstAgreesIff(t, Escape(Unescape(rest)));
    }
  }

  /** What is written for the first character is what was read exactly if that was canonical. */
  lemma FirstAgreesIff(t: string, tail: string)
    requires t != "" && Octets(t)
    ensures FirstChar(t) as int < 256
    ensures EscapeChar(FirstChar(t)) + tail == t <==>
      tail == AfterFirst(t)
      && if Escaped(t) then !Plain(FirstChar(t)) && !('a' <= t[1] <= 'f') && !('a' <= t[2] <= 'f') else Plain(t[0])
  {
    var c, rest := FirstChar(t), AfterFirst(t);
    if Escaped(t) {
      EscapeOfEscaped(t);
      assert t == t[..3] + rest;
      ThreeOrOne(c, t, tail, rest);
    } else if Plain(c) {
      assert t == [c] + rest;
      Beginnings([c], tail, [c], rest);
    } else {
      EscapedChar(c, tail);
    }
  }

  /** A byte that would not be escaped differs from its escaped form. */
  lemma ThreeOrOne(c: char, t: string, tail: string, rest: string)
    requires c as int < 256 && Escaped(t) && t == t[..3] + rest
    ensures EscapeChar(c) + tail == t <==> EscapeChar(c) == t[..3] && tail == rest
  {
    if Plain(c) {
      assert (EscapeChar(c) + tail)[0] == c && t[0] == '%';
    } else {
      Beginnings(EscapeChar(c), tail, t[..3], rest);
    }
  }

  // ---------------------------------------------------------------------------------
  // The methods

  /** url_escape: into a buffer that doubles when the escaped bytes no longer fit */
  method UrlEscape(s: string) returns (ns: array<char>, ghost len: nat)
    requires Octets(s)
    ensures fresh(ns) && len < ns.Length && ns[..len] == Escape(s) && ns[len] == '\0'
  {
    var alloc := |s| + 1;
    ns := new char[alloc];
    var newlen := alloc;
    var strindex := 0;
    var k := 0;
    while k < |s|
      invariant 0 <= k <= |s| && fresh(ns) && ns.Length == alloc
      invariant newlen == strindex + (|s| - k) + 1 <= alloc
      invariant strindex == |Escape(s[..k])| && ns[..strindex] == Escape(s[..k])
    {
      var c := s[k];
      assert s[..k + 1][..k] == s[..k];
      if Plain(c) {
        ns[strindex] := c;
        assert ns[..strindex + 1] == ns[..strindex] + EscapeChar(c);
        strindex := strindex + 1;
      } else {
        newlen := newlen + 2;
        if newlen > alloc {
          alloc := alloc * 2;
          ns := Realloc(ns, strindex, alloc);
        }
        WriteEscaped(ns, strindex, c);
        assert ns[..strindex + 3] == ns[..strindex] + EscapeChar(c);
        strindex := strindex + 3;
      }
      k := k + 1;
    }
    assert s[..|s|] == s;
    ns[strindex] := '\0';
    len := strindex;
  }

  /** snprintf(&ns[strindex], 4, "%%%02X", in): three characters and a NUL */
  method WriteEscaped(ns: array<char>, strindex: nat, c: char)
    requires strindex + 4 <= ns.Length && c as int < 256 && !Plain(c)
    modifies ns
    ensures ns[..strindex] == old(ns[..strindex]) && ns[strindex..strindex + 3] == EscapeChar(c)
  {
    ns[strindex], ns[strindex + 1], ns[strindex + 2], ns[strindex + 3] := '%', HexDigit(c as int / 16), HexDigit(c as int % 16), '\0';
  }

  method Realloc(ns: array<char>, used: nat, size: nat) returns (r: array<char>)
    requires used <= ns.Length <= size
    ensures fresh(r) && r.Length == size && r[..used] == ns[..used]
  {
    r := new char[size];
    var i := 0;
    while i < ns.Length
      invariant 0 <= i <= ns.Length && r[..i] == ns[..i]
    {
      r[i] := ns[i];
      i := i + 1;
    }
    assert r[..used] == r[..i][..used];
  }

  /** url_unescape: alloc counts down the characters left, so the result always fits */
  method UrlUnescape(s: string) returns (ns: array<char>, olen: nat)
    requires Octets(s)
    ensures fresh(ns) && olen < ns.Length && ns[..olen] == Unescape(s) && ns[olen] == '\0'
  {
    var alloc := |s| + 1;
    ns := new char[alloc];
    var strindex := 0;
    var p := 0;
    alloc := alloc - 1;
    ghost var rest := s;
    while alloc > 0
      invariant alloc == |s| - p && p <= |s| && strindex <= p && ns.Length == |s| + 1
      invariant rest == s[p..] && Unescape(s) == ns[..strindex] + Unescape(rest)
    {
      var c := s[p];
      assert rest[0] == c && (p + 2 < |s| ==> rest[1] == s[p + 1] && rest[2] == s[p + 2]);
      ghost var q := p;
      if c == '%' && p + 2 < |s| && IsHex(s[p + 1]) && IsHex(s[p + 2]) {
        c := (16 * HexValue(s[p + 1]) + HexValue(s[p + 2])) as char;
        p := p + 2;
        alloc := alloc - 2;
      }
      p := p + 1;
      alloc := alloc - 1;
      assert c == FirstChar(rest);
      TailOf(s, q, p - q);
      assert s[p..] == AfterFirst(rest);
      OneMore(ns[..strindex], c, rest);
      ns[strindex] := c;
      assert ns[..strindex + 1] == ns[..strindex] + [c];
      strindex := strindex + 1;
      rest := s[p..];
    }
    ns[strindex] := '\0';
    olen := strindex;
  }

  lemma TailOf(s: string, q: nat, k: nat)
    requires q + k <= |s|
    ensures s[q..][k..] == s[q + k..]
  {
  }

  lemma OneMore(done: string, c: char, rest: string)
    requires rest != "" && c == FirstChar(rest)
    ensures done + Unescape(rest) == (done + [c]) + Unescape(AfterFirst(rest))
  {
    Reassociate(done, [c], Unescape(AfterFirst(rest)));
  }
}
