/** Decimal texts: printing naturals, and what Python's `int()` accepts. */
module Decimals {
  import opened Collections

  predicate IsDigit(c: char) { '0' <= c <= '9' }

  predicate AllDigits(s: string) { forall k :: 0 <= k < |s| ==> IsDigit(s[k]) }

  /** The ASCII characters that `strip()` and `int()` skip. */
  predicate IsSpace(c: char) { '\t' <= c <= '\r' || '\U{1c}' <= c <= '\U{20}' }

  function DigitValue(c: char): nat
    requires IsDigit(c)
  {
    c as int - '0' as int
  }

  function DigitChar(d: nat): (c: char)
    requires d < 10
    ensures IsDigit(c) && DigitValue(c) == d
  {
    (d + '0' as int) as char
  }

  function ValueOf(s: string): nat
    requires AllDigits(s)
  {
    if s == [] then 0 else 10 * ValueOf(s[..|s| - 1]) + DigitValue(s[|s| - 1])
  }

  function Decimal(n: nat): (s: string)
    ensures s != [] && AllDigits(s)
  {
    if n < 10 then [DigitChar(n)] else Decimal(n / 10) + [DigitChar(n % 10)]
  }

  /** `unicode(n)` for an integer. */
  function DecimalInt(n: int): string {
    if n >= 0 then Decimal(n) else ['-'] + Decimal(-n)
  }

  lemma {:induction false} ValueOfDecimal(n: nat)
    ensures ValueOf(Decimal(n)) == n
  {
    if n >= 10 {
      ValueOfDecimal(n / 10);
      assert Decimal(n)[..|Decimal(n)| - 1] == Decimal(n / 10);
    }
  }

  function LStrip(s: string): (r: string)
    ensures r != [] ==> !IsSpace(r[0])
    ensures s != [] && !IsSpace(s[0]) ==> r == s
  {
    if s != [] && IsSpace(s[0]) then LStrip(s[1..]) else s
  }

  function RStrip(s: string): (r: string)
    ensures r <= s
    ensures r != [] ==> !IsSpace(r[|r| - 1])
    ensures forall k :: |r| <= k < |s| ==> IsSpace(s[k])
    ensures s == [] || !IsSpace(s[|s| - 1]) ==> r == s
  {
    if s != [] && IsSpace(s[|s| - 1]) then RStrip(s[..|s| - 1]) else s
  }

  function Strip(s: string): string {
    RStrip(LStrip(s))
  }

  /** One sign is allowed in front of the digits. */
  function ParseSigned(t: string): Option<int> {
    if t == [] then None
    else if t[0] == '-' then
      if |t| > 1 && AllDigits(t[1..]) then Some(0 - ValueOf(t[1..])) else None
    else if t[0] == '+' then
      if |t| > 1 && AllDigits(t[1..]) then Some(ValueOf(t[1..])) else None
    else if AllDigits(t) then Some(ValueOf(t))
    else None
  }

  /** `int(s)`: surrounding blanks and one sign are allowed, everything else is a ValueError. */
  function ParseInt(s: string): Option<int> {
    ParseSigned(Strip(s))
  }

  function Power(n: nat): nat { if n == 0 then 1 else 10 * Power(n - 1) }

  lemma OneMorePlace(value: nat, power: nat)
    ensures value * (10 * power) == 10 * (value * power)
  {
  }

  /** Digits have their place value. */
  lemma {:induction false} ValueOfPlaces(a: string, b: string)
    requires AllDigits(a) && AllDigits(b)
    ensures AllDigits(a + b) && ValueOf(a + b) == ValueOf(a) * Power(|b|) + ValueOf(b)
  {
    if b == [] {
      assert a + b == a;
    } else {
      ValueOfPlaces(a, b[..|b| - 1]);
      LastPlace(a, b[..|b| - 1], b[|b| - 1]);
      OneMorePlace(ValueOf(a), Power(|b| - 1));
      assert b[..|b| - 1] + [b[|b| - 1]] == b;
    }
  }

  lemma LastPlace(a: string, init: string, d: char)
    requires AllDigits(a) && AllDigits(init) && AllDigits(a + init) && IsDigit(d)
    ensures AllDigits(a + (init + [d])) && AllDigits(init + [d])
    ensures ValueOf(a + (init + [d])) == 10 * ValueOf(a + init) + DigitValue(d)
    ensures ValueOf(init + [d]) == 10 * ValueOf(init) + DigitValue(d)
  {
    assert (a + (init + [d]))[..|a + init|] == a + init;
    assert (init + [d])[..|init|] == init;
  }

  ghost predicate Blank(s: string) { forall k :: 0 <= k < |s| ==> IsSpace(s[k]) }

  lemma {:induction false} StripFront(a: string, t: string)
    requires Blank(a) && (t == "" || !IsSpace(t[0]))
    ensures LStrip(a + t) == t
  {
    if a == "" {
      assert a + t == t;
    } else {
      assert (a + t)[1..] == a[1..] + t;
      StripFront(a[1..], t);
    }
  }

  lemma {:induction false} StripBack(t: string, b: string)
    requires Blank(b) && (t == "" || !IsSpace(t[|t| - 1]))
    ensures RStrip(t + b) == t
  {
    if b == "" {
      assert t + b == t;
    } else {
      assert (t + b)[..|t + b| - 1] == t + b[..|b| - 1];
      StripBack(t, b[..|b| - 1]);
    }
  }

  /** Stripping drops exactly the blanks at both ends. */
  lemma StripsBlanks(a: string, t: string, b: string)
    requires Blank(a) && Blank(b) && t != "" && !IsSpace(t[0]) && !IsSpace(t[|t| - 1])
    ensures Strip(a + t + b) == t
  {
    assert a + t + b == a + (t + b);
    StripFront(a, t + b);
    StripBack(t, b);
  }

  lemma StripOfBare(t: string)
    requires t != "" && !IsSpace(t[0]) && !IsSpace(t[|t| - 1])
    ensures Strip(t) == t
  {
  }

  lemma ParsesSigned(d: string)
    requires d != "" && AllDigits(d)
    ensures ParseSigned(d) == Some(ValueOf(d))
    ensures ParseSigned(['+'] + d) == Some(ValueOf(d))
    ensures ParseSigned(['-'] + d) == Some(0 - ValueOf(d))
  {
    assert IsDigit(d[0]);
    assert (['+'] + d)[1..] == d && (['-'] + d)[1..] == d;
  }

  /** Digits, with a sign or without, are read between blanks. */
  lemma ParsesNumber(a: string, d: string, b: string)
    requires Blank(a) && Blank(b) && d != "" && AllDigits(d)
    ensures ParseInt(a + d + b) == Some(ValueOf(d))
    ensures ParseInt(a + (['+'] + d) + b) == Some(ValueOf(d))
    ensures ParseInt(a + (['-'] + d) + b) == Some(0 - ValueOf(d))
  {
    assert IsDigit(d[0]) && IsDigit(d[|d| - 1]);
    ParsesSigned(d);
    StripsBlanks(a, d, b);
    StripsBlanks(a, ['+'] + d, b);
    StripsBlanks(a, ['-'] + d, b);
  }

  ghost predicate SignedDigits(t: string) {
    exists d :: d != "" && AllDigits(d) && (t == d || t == ['+'] + d || t == ['-'] + d)
  }

  lemma ParsedIsSigned(t: string)
    requires ParseSigned(t).Some?
    ensures SignedDigits(t)
  {
    if t[0] == '-' || t[0] == '+' {
      var d := t[1..];
      assert t == [t[0]] + d;
    }
  }

  /** Nothing else is: what is read has this form. */
  lemma ParsedIsNumber(s: string) returns (a: string, t: string, b: string)
    requires ParseInt(s).Some?
    ensures s == a + t + b && Blank(a) && Blank(b) && SignedDigits(t)
  {
    t := Strip(s);
    ParsedIsSigned(t);
    a, b := AroundStripped(s);
  }

  lemma AroundStripped(s: string) returns (a: string, b: string)
    ensures s == a + Strip(s) + b && Blank(a) && Blank(b)
  {
    a := LeadingBlanks(s);
    b := TrailingBlanks(LStrip(s));
  }

  lemma TrailingBlanks(s: string) returns (b: string)
    ensures Blank(b) && s == RStrip(s) + b
  {
    b := s[|RStrip(s)|..];
    assert forall k :: 0 <= k < |b| ==> b[k] == s[|RStrip(s)| + k];
  }

  lemma {:induction false} LeadingBlanks(s: string) returns (a: string)
    ensures Blank(a) && s == a + LStrip(s)
  {
    a := "";
    if s != [] && IsSpace(s[0]) {
      var rest := LeadingBlanks(s[1..]);
      a := [s[0]] + rest;
      assert s == [s[0]] + s[1..];
    }
  }

  /** Printed integers are read back. */
  lemma ParseDecimalInt(n: int)
    ensures ParseInt(DecimalInt(n)) == Some(n)
  {
    var m: nat := if n >= 0 then n else -n;
    ValueOfDecimal(m);
    ParsesSigned(Decimal(m));
    assert IsDigit(Decimal(m)[0]) && IsDigit(Decimal(m)[|Decimal(m)| - 1]);
    StripOfBare(DecimalInt(n));
  }

  lemma ParseDecimal(n: nat)
    ensures ParseInt(Decimal(n)) == Some(n) && Strip(Decimal(n)) == Decimal(n)
  {
    ValueOfDecimal(n);
    var s := Decimal(n);
    assert IsDigit(s[0]) && IsDigit(s[|s| - 1]);
  }
}
