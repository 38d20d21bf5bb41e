/** Decimal digits: powers of ten, printing and scanning of numerals. */
module Numerals {
  import opened Wrappers

  function Pow10(k: nat): (r: nat)
    ensures r >= 1
  {
    if k == 0 then 1 else 10 * Pow10(k - 1)
  }

  lemma {:induction false} Pow10Sum(a: nat, b: nat)
    ensures Pow10(a + b) == Pow10(a) * Pow10(b)
  {
    if a > 0 {
      Pow10Sum(a - 1, b);
      assert 10 * (Pow10(a - 1) * Pow10(b)) == (10 * Pow10(a - 1)) * Pow10(b);
    }
  }

  lemma {:induction false} Pow10Monotone(a: nat, b: nat)
    requires a <= b
    ensures Pow10(a) <= Pow10(b)
    decreases b - a
  {
    if a < b {
      Pow10Monotone(a, b - 1);
    }
  }

  predicate IsDigit(c: char) {
    '0' <= c <= '9'
  }

  predicate AllDigits(s: string) {
    forall i | 0 <= i < |s| :: IsDigit(s[i])
  }

  function DigitValue(c: char): (r: nat)
    requires IsDigit(c)
    ensures r <= 9
  {
    c as int - '0' as int
  }

  function DigitChar(d: nat): (c: char)
    requires d <= 9
    ensures IsDigit(c) && DigitValue(c) == d
  {
    ('0' as int + d) as char
  }

  /** The number a digit string denotes; 0 for the empty string. */
  function Value(s: string): nat
    requires AllDigits(s)
  {
    if s == [] then 0 else 10 * Value(s[..|s| - 1]) + DigitValue(s[|s| - 1])
  }

  lemma {:induction false} ValueBound(s: string)
    requires AllDigits(s)
    ensures Value(s) < Pow10(|s|)
    decreases |s|
  {
    if s != [] {
      ValueBound(s[..|s| - 1]);
    }
  }

  lemma {:induction false} ValueConcat(a: string, b: string)
    requires AllDigits(a) && AllDigits(b)
    ensures AllDigits(a + b) && Value(a + b) == Value(a) * Pow10(|b|) + Value(b)
    decreases |b|
  {
    var n := |b|;
    if n == 0 {
      assert a + b == a;
    } else {
      ValueConcat(a, b[..n - 1]);
      assert (a + b)[..|a + b| - 1] == a + b[..n - 1];
      assert (a + b)[|a + b| - 1] == b[n - 1];
      assert 10 * (Value(a) * Pow10(n - 1)) == Value(a) * Pow10(n);
    }
  }

  /** Length of the digits at the front of `s`. */
  function DigitRun(s: string): (n: nat)
    ensures n <= |s| && AllDigits(s[..n])
    ensures n < |s| ==> !IsDigit(s[n])
  {
    if s == [] || !IsDigit(s[0]) then 0
    else
      var n := 1 + DigitRun(s[1..]);
      assert s[..n] == [s[0]] + s[1..][..n - 1];
      n
  }

  lemma DigitRunIs(s: string, n: nat)
    requires n <= |s| && AllDigits(s[..n]) && (n < |s| ==> !IsDigit(s[n]))
    ensures DigitRun(s) == n
  {
    var k := DigitRun(s);
    assert forall i | 0 <= i < n :: s[..n][i] == s[i];
    assert forall i | 0 <= i < k :: s[..k][i] == s[i];
  }

  // ---------------------------------------------------------------- scanning

  datatype Scanned = Scanned(value: int, rest: string)

  /** `std::from_chars` into an integer type with bounds [lo, hi], on at most `maxLen` characters:
      an optional minus sign if the type is signed, then digits; nothing on no digits or overflow. */
  function FromChars(s: string, maxLen: nat, lo: int, hi: int): (r: Option<Scanned>)
    ensures r.Some? ==> lo <= r.value.value <= hi
    ensures r.Some? ==> |r.value.rest| < |s| <= |r.value.rest| + maxLen
  {
    var w := if maxLen < |s| then s[..maxLen] else s;
    var neg := lo < 0 && w != [] && w[0] == '-';
    var body := if neg then w[1..] else w;
    var n := DigitRun(body);
    if n == 0 then None
    else
      var magnitude: int := Value(body[..n]);
      var v := if neg then -magnitude else magnitude;
      var used := if neg then n + 1 else n;
      if lo <= v <= hi then Some(Scanned(v, s[used..])) else None
  }

  /** What is not scanned is left as it was. */
  lemma FromCharsSuffix(s: string, maxLen: nat, lo: int, hi: int)
    requires FromChars(s, maxLen, lo, hi).Some?
    ensures var rest := FromChars(s, maxLen, lo, hi).value.rest; s[|s| - |rest|..] == rest
  {
  }

  const INT64_MIN: int := -0x8000_0000_0000_0000
  const INT64_MAX: int := 0x7FFF_FFFF_FFFF_FFFF
  const UINT32_MAX: int := 0xFFFF_FFFF

  // ---------------------------------------------------------------- printing

  /** `n` in decimal with at least `width` digits, zero-padded. */
  function Print(n: nat, width: nat): (s: string)
    ensures |s| >= 1
    decreases n + width
  {
    if n < 10 && width <= 1 then [DigitChar(n)]
    else Print(n / 10, if width == 0 then 0 else width - 1) + [DigitChar(n % 10)]
  }

  /** What is printed is a numeral for `n`, wide enough. */
  lemma {:induction false} PrintDigits(n: nat, width: nat)
    ensures AllDigits(Print(n, width)) && |Print(n, width)| >= width
    ensures Value(Print(n, width)) == n
    decreases n + width
  {
    if n < 10 && width <= 1 {
      assert [DigitChar(n)][..0] == [];
    } else {
      var w := if width == 0 then 0 else width - 1;
      PrintDigits(n / 10, w);
      assert Print(n, width)[..|Print(n / 10, w)|] == Print(n / 10, w);
    }
  }

  lemma {:induction false} PrintWidth(n: nat, width: nat)
    requires width >= 1 && n < Pow10(width)
    ensures |Print(n, width)| == width
    decreases width
  {
    if width > 1 {
      PrintWidth(n / 10, width - 1);
    }
  }

  /** `%0*lld`: the sign counts toward the width. */
  function PrintSigned(n: int, width: nat): string {
    if n < 0 then ['-'] + Print(-n, if width == 0 then 0 else width - 1) else Print(n, width)
  }

  /** Scanning a printed numeral gives it back, and what follows it. */
  lemma ScanPrinted(n: nat, width: nat, rest: string, maxLen: nat, lo: int, hi: int)
    requires lo <= n <= hi && |Print(n, width)| <= maxLen
    requires |Print(n, width)| == maxLen || rest == [] || !IsDigit(rest[0])
    ensures FromChars(Print(n, width) + rest, maxLen, lo, hi) == Some(Scanned(n, rest))
  {
    var p := Print(n, width);
    var s := p + rest;
    PrintDigits(n, width);
    var w := if maxLen < |s| then s[..maxLen] else s;
    assert w[0] == p[0];
    assert w[..|p|] == p;
    DigitRunIs(w, |p|);
    assert s[|p|..] == rest;
  }

  lemma ScanPrintedSigned(n: int, width: nat, rest: string, maxLen: nat)
    requires INT64_MIN <= n <= INT64_MAX && |PrintSigned(n, width)| + |rest| <= maxLen
    requires rest == [] || !IsDigit(rest[0])
    ensures FromChars(PrintSigned(n, width) + rest, maxLen, INT64_MIN, INT64_MAX) == Some(Scanned(n, rest))
  {
    if n < 0 {
      var w := if width == 0 then 0 else width - 1;
      NegativeScan(-n, Print(-n, w), w, rest, maxLen);
    } else {
      ScanPrinted(n, width, rest, maxLen, INT64_MIN, INT64_MAX);
    }
  }

  lemma NegativeScan(n: int, p: string, w: nat, rest: string, maxLen: nat)
    requires 1 <= n <= -INT64_MIN && p == Print(n, w) && 1 + |p| + |rest| <= maxLen
    requires rest == [] || !IsDigit(rest[0])
    ensures FromChars(['-'] + p + rest, maxLen, INT64_MIN, INT64_MAX) == Some(Scanned(-n, rest))
  {
    PrintDigits(n, w);
    var s := ['-'] + p + rest;
    assert s[1..] == p + rest;
    assert s[1..][..|p|] == p;
    DigitRunIs(s[1..], |p|);
    assert s[|p| + 1..] == rest;
  }
}
