/**
  * The text handling the two importers rely on: `str.strip()`, `str.split(",")`,
  * `str.startswith`, and the `int(...)` and `float(...)` conversions of a field.
  *
  * `int` accepts optional surrounding whitespace, an optional sign and decimal digits.
  * `float` accepts the same, with an optional decimal point that has digits on at least
  * one side. Exponents, `inf`/`nan`, underscores and non-ASCII digits and whitespace are
  * not part of this model, and a float is the exact rational its digits denote.
  */
module Text {
  import opened Wrappers

  /**
    * Python's whitespace, what `str.strip()` and `int()` remove: tab through carriage return,
    * the four separators U+001C to U+001F, space, and the Unicode spaces and line separators.
    */
  predicate IsSpace(c: char)
  {
    || ('\t' <= c <= '\r') || ('\U{1c}' <= c <= '\U{1f}') || c == ' '
    || c == '\U{85}' || c == '\U{a0}' || c == '\U{1680}' || ('\U{2000}' <= c <= '\U{200a}')
    || c == '\U{2028}' || c == '\U{2029}' || c == '\U{202f}' || c == '\U{205f}' || c == '\U{3000}'
  }

  predicate AllSpace(s: string)
  {
    forall i :: 0 <= i < |s| ==> IsSpace(s[i])
  }

  /** Neither end of `s` is whitespace. */
  predicate Trimmed(s: string)
  {
    s == [] || (!IsSpace(s[0]) && !IsSpace(s[|s| - 1]))
  }

  function StripLeft(s: string): (r: string)
    ensures |r| <= |s| && r == s[|s| - |r|..] && AllSpace(s[..|s| - |r|])
    ensures r == [] || !IsSpace(r[0])
  {
    if s != [] && IsSpace(s[0]) then
      var r := StripLeft(s[1..]);
      assert s[1..][..|s| - 1 - |r|] == s[1..|s| - |r|];
      r
    else s
  }

  function StripRight(s: string): (r: string)
    ensures |r| <= |s| && r == s[..|r|] && AllSpace(s[|r|..])
    ensures r == [] || !IsSpace(r[|r| - 1])
  {
    if s != [] && IsSpace(s[|s| - 1]) then
      var r := StripRight(s[..|s| - 1]);
      assert s[|r|..] == s[..|s| - 1][|r|..] + [s[|s| - 1]];
      r
    else s
  }

  /** `s.strip()`: the middle of `s` between two runs of whitespace. */
  function Strip(s: string): (r: string)
    ensures Trimmed(r)
  {
    var a := StripLeft(s);
    var r := StripRight(a);
    assert r != [] ==> r[0] == a[0];
    r
  }

  /** What `strip` keeps is a slice of its argument with only whitespace around it. */
  lemma StripIsMiddle(s: string)
    ensures var r := Strip(s);
            exists i, j :: 0 <= i <= j <= |s| && r == s[i..j] && AllSpace(s[..i]) && AllSpace(s[j..])
  {
    var a := StripLeft(s);
    var r := StripRight(a);
    var i := |s| - |a|;
    assert r == s[i..i + |r|];
    assert s[i + |r|..] == a[|r|..];
  }

  lemma {:induction false} StripLeftOf(lead: string, t: string)
    requires AllSpace(lead) && (t == [] || !IsSpace(t[0]))
    ensures StripLeft(lead + t) == t
    decreases |lead|
  {
    if lead != [] {
      assert (lead + t)[1..] == lead[1..] + t;
      StripLeftOf(lead[1..], t);
    } else {
      assert lead + t == t;
    }
  }

  lemma {:induction false} StripRightOf(t: string, trail: string)
    requires AllSpace(trail) && (t == [] || !IsSpace(t[|t| - 1]))
    ensures StripRight(t + trail) == t
    decreases |trail|
  {
    if trail != [] {
      var last := |trail| - 1;
      assert (t + trail)[..|t + trail| - 1] == t + trail[..last];
      StripRightOf(t, trail[..last]);
    } else {
      assert t + trail == t;
    }
  }

  /** Stripping recovers a trimmed text from any whitespace padding around it. */
  lemma StripOf(lead: string, t: string, trail: string)
    requires AllSpace(lead) && AllSpace(trail) && Trimmed(t)
    ensures Strip(lead + t + trail) == t
  {
    assert lead + t + trail == lead + (t + trail);
    if t == [] {
      var s := lead + t + trail;
      assert AllSpace(s) by {
        forall i | 0 <= i < |s| ensures IsSpace(s[i]) {
          if i < |lead| {
            assert s[i] == lead[i];
          } else {
            assert s[i] == trail[i - |lead|];
          }
        }
      }
      StripLeftOf(s, []);
      assert s + [] == s;
    } else {
      assert (t + trail)[0] == t[0];
      StripLeftOf(lead, t + trail);
      StripRightOf(t, trail);
    }
  }

  // ---------------------------------------------------------------------------
  // split

  /** The inverse of `split`: the parts with the separator between them. */
  function Join(parts: seq<string>, sep: char): string
    requires |parts| >= 1
  {
    if |parts| == 1 then parts[0] else parts[0] + [sep] + Join(parts[1..], sep)
  }

  /** `s.split(sep)`: the maximal runs between separators; "" gives [""], "a," gives ["a", ""]. */
  function Split(s: string, sep: char): (r: seq<string>)
    ensures |r| >= 1
    ensures forall i :: 0 <= i < |r| ==> sep !in r[i]
    ensures Join(r, sep) == s
  {
    if s == [] then [[]]
    else
      var rest := Split(s[1..], sep);
      if s[0] == sep then
        assert ([[]] + rest)[1..] == rest;
        [[]] + rest
      else
        var r := [[s[0]] + rest[0]] + rest[1..];
        assert r[1..] == rest[1..];
        assert s == [s[0]] + s[1..];
        r
  }

  lemma {:induction false} SplitNoSep(p: string, sep: char)
    requires sep !in p
    ensures Split(p, sep) == [p]
    decreases |p|
  {
    if p != [] {
      SplitNoSep(p[1..], sep);
      assert [p[0]] + p[1..] == p;
    }
  }

  lemma {:induction false} SplitFront(p: string, sep: char, rest: string)
    requires sep !in p
    ensures Split(p + [sep] + rest, sep) == [p] + Split(rest, sep)
    decreases |p|
  {
    var s := p + [sep] + rest;
    if p == [] {
      assert s[1..] == rest;
    } else {
      assert s[1..] == p[1..] + [sep] + rest;
      SplitFront(p[1..], sep, rest);
      assert [p[0]] + p[1..] == p;
    }
  }

  /** Splitting what `Join` built gives the parts back. */
  lemma {:induction false} SplitJoin(parts: seq<string>, sep: char)
    requires |parts| >= 1 && forall i :: 0 <= i < |parts| ==> sep !in parts[i]
    ensures Split(Join(parts, sep), sep) == parts
    decreases |parts|
  {
    if |parts| == 1 {
      SplitNoSep(parts[0], sep);
    } else {
      SplitJoin(parts[1..], sep);
      SplitFront(parts[0], sep, Join(parts[1..], sep));
      assert [parts[0]] + parts[1..] == parts;
    }
  }

  // ---------------------------------------------------------------------------
  // Decimal digits

  predicate IsDigit(c: char)
  {
    '0' <= c <= '9'
  }

  predicate AllDigits(s: string)
  {
    forall i :: 0 <= i < |s| ==> IsDigit(s[i])
  }

  function Pow10(k: nat): (r: nat)
    ensures r >= 1
  {
    if k == 0 then 1 else 10 * Pow10(k - 1)
  }

  /** The number a digit string denotes, most significant digit first. */
  function DigitsValue(s: string): nat
    requires AllDigits(s)
  {
    if s == [] then 0
    else DigitsValue(s[..|s| - 1]) * 10 + (s[|s| - 1] as int - '0' as int)
  }

  function DigitChar(d: nat): (c: char)
    requires d < 10
    ensures IsDigit(c) && c as int - '0' as int == d
  {
    ('0' as int + d) as char
  }

  /** The shortest decimal digits of `n`. */
  function Digits(n: nat): (r: string)
    ensures |r| >= 1 && AllDigits(r)
  {
    if n < 10 then [DigitChar(n)] else Digits(n / 10) + [DigitChar(n % 10)]
  }

  lemma {:induction false} DigitsRoundTrip(n: nat)
    ensures DigitsValue(Digits(n)) == n
  {
    if n >= 10 {
      var s := Digits(n);
      assert s[..|s| - 1] == Digits(n / 10);
      DigitsRoundTrip(n / 10);
    } else {
      assert [DigitChar(n)][..0] == [];
    }
  }

  /** Digits appended at the end shift the value left. */
  lemma {:induction false} DigitsValueAppend(a: string, b: string)
    requires AllDigits(a) && AllDigits(b)
    ensures AllDigits(a + b) && DigitsValue(a + b) == DigitsValue(a) * Pow10(|b|) + DigitsValue(b)
    decreases |b|
  {
    if b == [] {
      assert a + b == a;
    } else {
      var b' := b[..|b| - 1];
      var d := b[|b| - 1] as int - '0' as int;
      var ab := a + b;
      assert AllDigits(ab) by {
        forall i | 0 <= i < |ab| ensures IsDigit(ab[i]) {
          if i < |a| { assert ab[i] == a[i]; } else { assert ab[i] == b[i - |a|]; }
        }
      }
      assert ab[..|ab| - 1] == a + b' && ab[|ab| - 1] == b[|b| - 1];
      DigitsValueAppend(a, b');
      assert DigitsValue(ab) == DigitsValue(a + b') * 10 + d;
      assert DigitsValue(b) == DigitsValue(b') * 10 + d;
      assert Pow10(|b|) == Pow10(|b'|) * 10;
      ShiftStep(DigitsValue(a), Pow10(|b'|), DigitsValue(b'), d);
    }
  }

  /** One more digit after `x` shifted by `p` and followed by `y`. */
  lemma ShiftStep(x: int, p: int, y: int, d: int)
    ensures (x * p + y) * 10 + d == x * (p * 10) + (y * 10 + d)
  {
    calc {
      (x * p + y) * 10 + d;
      x * p * 10 + y * 10 + d;
      x * (p * 10) + (y * 10 + d);
    }
  }

  function Zeros(k: nat): (r: string)
    ensures |r| == k && AllDigits(r)
  {
    if k == 0 then [] else Zeros(k - 1) + ['0']
  }

  lemma {:induction false} ZerosValue(k: nat)
    ensures DigitsValue(Zeros(k)) == 0
  {
    if k > 0 {
      assert Zeros(k)[..k - 1] == Zeros(k - 1);
      ZerosValue(k - 1);
    }
  }

  /** `s` left-padded with zeros to at least `w` digits. */
  function Pad(s: string, w: nat): (r: string)
    requires AllDigits(s)
    ensures AllDigits(r) && |r| >= w && |r| >= |s|
  {
    if |s| >= w then s else Zeros(w - |s|) + s
  }

  /** Leading zeros do not change the value. */
  lemma {:induction false} LeadingZeros(k: nat, s: string)
    requires AllDigits(s)
    ensures AllDigits(Zeros(k) + s) && DigitsValue(Zeros(k) + s) == DigitsValue(s)
    decreases |s|
  {
    var z := Zeros(k);
    assert AllDigits(z + s) by {
      forall i | 0 <= i < |z + s| ensures IsDigit((z + s)[i]) {
        if i < |z| {
          assert (z + s)[i] == z[i];
        } else {
          assert (z + s)[i] == s[i - |z|];
        }
      }
    }
    if s == [] {
      assert z + s == z;
      ZerosValue(k);
    } else {
      var s' := s[..|s| - 1];
      assert (z + s)[..|z + s| - 1] == z + s';
      assert (z + s)[|z + s| - 1] == s[|s| - 1];
      LeadingZeros(k, s');
    }
  }

  lemma PadValue(s: string, w: nat)
    requires AllDigits(s)
    ensures DigitsValue(Pad(s, w)) == DigitsValue(s)
  {
    if |s| < w {
      LeadingZeros(w - |s|, s);
    }
  }

  // ---------------------------------------------------------------------------
  // int(...)

  /** A non-empty run of digits. */
  function ParseNat(s: string): (r: Option<nat>)
    ensures r.Some? <==> s != [] && AllDigits(s)
  {
    if s != [] && AllDigits(s) then Some(DigitsValue(s)) else None
  }

  /** The unsigned text after an optional sign, and whether the sign is a minus. */
  function Unsigned(t: string): (string, bool)
  {
    if |t| > 0 && (t[0] == '-' || t[0] == '+') then (t[1..], t[0] == '-') else (t, false)
  }

  /** `int(s)`; None where Python raises ValueError. */
  function ParseInt(s: string): Option<int>
  {
    var (body, negative) := Unsigned(Strip(s));
    match ParseNat(body)
    case None => None
    case Some(v) => var n: int := v; Some(if negative then -n else n)
  }

  /** `str(n)`. */
  function IntText(n: int): string
  {
    if n < 0 then ['-'] + Digits(-n) else Digits(n)
  }

  lemma DigitsTrimmed(n: nat)
    ensures Trimmed(Digits(n)) && Trimmed(IntText(n)) && Trimmed(IntText(-(n as int)))
  {
    var d := Digits(n);
    assert IsDigit(d[0]) && IsDigit(d[|d| - 1]);
    if n > 0 {
      assert IntText(-(n as int)) == ['-'] + d;
    }
  }

  /** A trimmed text is its own `strip`. */
  lemma StripTrimmed(t: string)
    requires Trimmed(t)
    ensures Strip(t) == t
  {
    assert StripLeft(t) == t;
  }

  lemma StripIntText(n: int)
    ensures Strip(IntText(n)) == IntText(n)
  {
    var m: nat := if n < 0 then -n else n;
    DigitsTrimmed(m);
    StripTrimmed(IntText(n));
  }

  lemma UnsignedIntText(n: int)
    ensures Unsigned(IntText(n)) == (Digits(if n < 0 then -n else n), n < 0)
  {
    var t := IntText(n);
    var m: nat := if n < 0 then -n else n;
    var d := Digits(m);
    if n < 0 {
      assert t == ['-'] + d && t[1..] == d;
    } else {
      assert t == d;
      assert IsDigit(d[0]);
    }
  }

  /** `int(str(n)) == n`. */
  lemma ParseIntText(n: int)
    ensures ParseInt(IntText(n)) == Some(n)
  {
    var m: nat := if n < 0 then -n else n;
    StripIntText(n);
    UnsignedIntText(n);
    DigitsRoundTrip(m);
  }

  // ---------------------------------------------------------------------------
  // float(...)

  /** The position of the first `c` in `s`, or |s| when there is none. */
  function FirstIndex(s: string, c: char): (i: nat)
    ensures i <= |s| && c !in s[..i] && (i < |s| ==> s[i] == c)
  {
    if s == [] then 0
    else if s[0] == c then 0
    else
      var i := FirstIndex(s[1..], c);
      assert s[..i + 1] == [s[0]] + s[1..][..i];
      i + 1
  }

  /** `n / 10^k`, written with divisions by ten only. */
  function Scaled(n: int, k: nat): real
  {
    if k == 0 then n as real else Scaled(n, k - 1) / 10.0
  }

  /** `Scaled` is the quotient by the power of ten. */
  lemma {:induction false} ScaledQuotient(n: int, k: nat)
    ensures Scaled(n, k) == n as real / Pow10(k) as real
  {
    if k > 0 {
      ScaledQuotient(n, k - 1);
      var p := Pow10(k - 1) as real;
      assert Pow10(k) as real == 10.0 * p;
      assert (n as real / p) / 10.0 == n as real / (10.0 * p);
    }
  }

  /** Scaling commutes with negation. */
  lemma {:induction false} ScaledNegate(n: int, k: nat)
    ensures Scaled(-n, k) == 0.0 - Scaled(n, k)
  {
    if k > 0 {
      ScaledNegate(n, k - 1);
    }
  }

  /** Digits with an optional point that has a digit on at least one side. */
  function ParseUnsignedReal(b: string): Option<real>
  {
    var i := FirstIndex(b, '.');
    if i == |b| then
      match ParseNat(b)
      case None => None
      case Some(v) => Some(v as real)
    else
      var ip, fp := b[..i], b[i + 1..];
      if AllDigits(ip + fp) && |ip| + |fp| > 0 then
        Some(Scaled(DigitsValue(ip + fp), |fp|))
      else None
  }

  /** `float(s)`; None where Python raises ValueError. */
  function ParseReal(s: string): Option<real>
  {
    var (body, negative) := Unsigned(Strip(s));
    match ParseUnsignedReal(body)
    case None => None
    case Some(v) => Some(if negative then 0.0 - v else v)
  }

  /** A digit string has no decimal point. */
  lemma NoPoint(d: string)
    requires AllDigits(d)
    ensures FirstIndex(d, '.') == |d|
  {
  }

  /** The first point after a digit string is the one that follows it. */
  lemma PointAfterDigits(ip: string, fp: string)
    requires AllDigits(ip)
    ensures FirstIndex(ip + ['.'] + fp, '.') == |ip|
  {
    var b := ip + ['.'] + fp;
    var i := FirstIndex(b, '.');
    assert b[|ip|] == '.';
    assert forall j :: 0 <= j < |ip| ==> b[j] == ip[j];
  }

  /** The digits of `|m|`, padded so that `k` of them can follow the point. */
  function DecimalDigits(m: int, k: nat): (d: string)
    ensures AllDigits(d) && |d| >= k + 1
  {
    Pad(Digits(if m < 0 then -m else m), k + 1)
  }

  /** `DecimalDigits` with the point inserted before its last `k` digits. */
  function DecimalBody(m: int, k: nat): string
  {
    var d := DecimalDigits(m, k);
    d[..|d| - k] + ['.'] + d[|d| - k..]
  }

  /** A decimal with `k` digits after the point, denoting `m / 10^k`. */
  function DecimalText(m: int, k: nat): string
  {
    (if m < 0 then ['-'] else []) + DecimalBody(m, k)
  }

  lemma DecimalUnsigned(m: int, k: nat)
    ensures Trimmed(DecimalText(m, k))
    ensures Unsigned(DecimalText(m, k)) == (DecimalBody(m, k), m < 0)
  {
    var d := DecimalDigits(m, k);
    var b := DecimalBody(m, k);
    var t := DecimalText(m, k);
    assert IsDigit(d[0]) && IsDigit(d[|d| - 1]);
    assert b[0] == d[0];
    if k == 0 {
      assert t[|t| - 1] == '.';
    } else {
      assert t[|t| - 1] == d[|d| - 1];
    }
    if m < 0 {
      assert t[1..] == b;
    } else {
      assert t == b;
    }
  }

  lemma DecimalBodyValue(m: int, k: nat)
    ensures ParseUnsignedReal(DecimalBody(m, k)) == Some(Scaled(if m < 0 then -m else m, k))
  {
    var d := DecimalDigits(m, k);
    var ip, fp := d[..|d| - k], d[|d| - k..];
    assert ip + fp == d && |fp| == k;
    assert DecimalBody(m, k) == ip + ['.'] + fp;
    DecimalDigitsValue(m, k);
    SplitDecimalValue(ip, fp);
  }

  /** The padded digits of `|m|` still denote `|m|`. */
  lemma DecimalDigitsValue(m: int, k: nat)
    ensures DigitsValue(DecimalDigits(m, k)) == if m < 0 then -m else m
  {
    var a: nat := if m < 0 then -m else m;
    PadValue(Digits(a), k + 1);
    DigitsRoundTrip(a);
  }

  /** Digits around a point read as their value scaled by the digits after the point. */
  lemma SplitDecimalValue(ip: string, fp: string)
    requires AllDigits(ip + fp) && |ip| + |fp| > 0
    ensures ParseUnsignedReal(ip + ['.'] + fp) == Some(Scaled(DigitsValue(ip + fp), |fp|))
  {
    var b := ip + ['.'] + fp;
    assert AllDigits(ip) by {
      assert forall j :: 0 <= j < |ip| ==> ip[j] == (ip + fp)[j];
    }
    PointAfterDigits(ip, fp);
    assert b[..|ip|] == ip && b[|ip| + 1..] == fp;
  }

  /** `float` reads back the number `DecimalText` printed, `m / 10^k`. */
  lemma ParseDecimalText(m: int, k: nat)
    ensures ParseReal(DecimalText(m, k)) == Some(Scaled(m, k))
  {
    var a := if m < 0 then -m else m;
    DecimalUnsigned(m, k);
    DecimalBodyValue(m, k);
    ParseTrimmed(DecimalText(m, k), DecimalBody(m, k), m < 0, Scaled(a, k));
    SignedScaled(ParseReal(DecimalText(m, k)), m, a, k);
  }

  /** A parse that found the magnitude of `m` and its sign found `m`. */
  lemma SignedScaled(r: Option<real>, m: int, a: int, k: nat)
    requires a == (if m < 0 then -m else m)
    requires r == Some(if m < 0 then 0.0 - Scaled(a, k) else Scaled(a, k))
    ensures r == Some(Scaled(m, k))
  {
    if m < 0 {
      ScaledNegate(a, k);
    }
  }

  /** `float` of a trimmed text in terms of the sign and body it finds. */
  lemma ParseTrimmed(s: string, b: string, negative: bool, v: real)
    requires Trimmed(s) && Unsigned(s) == (b, negative) && ParseUnsignedReal(b) == Some(v)
    ensures ParseReal(s) == Some(if negative then 0.0 - v else v)
  {
    StripTrimmed(s);
  }

  /** `float(str(n))` for an integer `n`. */
  lemma ParseRealIntText(n: int)
    ensures ParseReal(IntText(n)) == Some(n as real)
  {
    var m: nat := if n < 0 then -n else n;
    StripIntText(n);
    UnsignedIntText(n);
    DigitsRoundTrip(m);
    NoPoint(Digits(m));
  }
}
