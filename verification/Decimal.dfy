/**
Decimals: rescaling by powers of ten with overflow and rounding, and numeric literals.
The reference is the exact rational: `r` units of 10^-scale against the value they stand for.
*/
module Decimal {
  import opened Wrappers
  import opened Numerals

  const MAX_SCALE: int := 19    // digits10 of a 64-bit unsigned integer
  const MAX_DIGITS: nat := 18   // digits10 of a 64-bit signed integer

  predicate Fits(v: int) {
    INT64_MIN <= v <= INT64_MAX
  }

  function Abs(v: int): nat {
    if v < 0 then -v else v
  }

  /** `convert_decimal_value_to_scale_internal`: value * 10^dscale. */
  function Rescale(v: int, dscale: int): Result<int>
    requires Fits(v) && (dscale < 0 ==> v > INT64_MIN)
  {
    if dscale < 0 then
      if dscale < -MAX_SCALE then Ok(0)
      else
        var pow := Pow10(-dscale);
        var div := Abs(v) / pow + (if pow / 2 <= Abs(v) % pow then 1 else 0);
        Ok(if v < 0 then 0 - div else div)
    else if dscale < MAX_SCALE && Fits(v * Pow10(dscale)) then Ok(v * Pow10(dscale))
    else if v == 0 then Ok(0)
    else Thrown
  }

  // ---------------------------------------------------------------- the reference

  /** `r` is `v / p` rounded to the nearest integer, halves away from zero. */
  predicate IsRounded(v: int, p: int, r: int) {
    && 2 * Abs(v - r * p) <= p
    && (2 * Abs(v - r * p) == p ==> Abs(r * p) > Abs(v))
  }

  /** Rounding is a function: there is one such `r`. */
  lemma RoundedUnique(v: int, p: int, r: int, q: int)
    requires p > 0 && IsRounded(v, p, r) && IsRounded(v, p, q)
    ensures r == q
  {
    Multiples(r - q, p);
    assert (r - q) * p == r * p - q * p;
  }

  lemma Multiples(d: int, p: int)
    requires p > 0
    ensures d >= 1 ==> d * p >= p
    ensures d >= 2 ==> d * p >= 2 * p
    ensures d <= -1 ==> d * p <= -p
    ensures d <= -2 ==> d * p <= -2 * p
  {
    if d >= 2 {
      assert (d - 2) * p >= 0;
    } else if d <= -2 {
      assert (-2 - d) * p >= 0;
    }
  }

  /** Rounding commutes with negation and keeps order. */
  lemma RoundedOdd(v: int, p: int, r: int)
    requires IsRounded(v, p, r)
    ensures IsRounded(-v, p, -r)
  {
    assert (-r) * p == -(r * p);
  }

  lemma RoundedMonotone(v: int, w: int, p: int, r: int, q: int)
    requires p > 0 && v <= w && IsRounded(v, p, r) && IsRounded(w, p, q)
    ensures r <= q
  {
    Multiples(r - q, p);
    assert (r - q) * p == r * p - q * p;
  }

  lemma RoundedNat(u: nat, p: nat)
    requires p >= 2 && p % 2 == 0
    ensures IsRounded(u, p, u / p + (if p / 2 <= u % p then 1 else 0))
  {
    var q, r := u / p, u % p;
    assert u == q * p + r;
    assert (q + 1) * p == q * p + p;
  }

  lemma Pow10Even(k: nat)
    requires k >= 1
    ensures Pow10(k) % 2 == 0 && Pow10(k) >= 2
  {
  }

  lemma Pow10Large(k: nat)
    requires k >= 19
    ensures Pow10(k) >= 10_000_000_000_000_000_000
  {
    Pow10Monotone(19, k);
    Pow10Nineteen();
  }

  lemma Pow10Nineteen()
    ensures Pow10(18) == 1_000_000_000_000_000_000 && Pow10(19) == 10_000_000_000_000_000_000
  {
    assert Pow10(6) == 1_000_000;
    Pow10Sum(6, 6);
    Pow10Sum(12, 6);
  }

  // ---------------------------------------------------------------- rescaling

  /** Scaling up is exact and total: the true product if and only if it fits, for every scale. */
  lemma ScaleUp(v: int, k: nat)
    requires Fits(v)
    ensures Rescale(v, k) == if Fits(v * Pow10(k)) then Ok(v * Pow10(k)) else Thrown
  {
    if k >= 19 && v != 0 {
      Pow10Large(k);
      ProductLarge(v, Pow10(k));
    }
  }

  lemma ProductLarge(v: int, p: int)
    requires v != 0 && p >= 10_000_000_000_000_000_000
    ensures !Fits(v * p)
  {
    Multiples(v, p);
  }

  /** Scaling down rounds half away from zero, for every scale. */
  lemma ScaleDown(v: int, k: int)
    requires INT64_MIN < v <= INT64_MAX && k >= 1
    ensures Rescale(v, -k).Ok? && IsRounded(v, Pow10(k), Rescale(v, -k).value)
  {
    if k > 19 {
      Pow10Large(k - 1);
      assert Pow10(k) == 10 * Pow10(k - 1);
    } else {
      Pow10Even(k);
      RoundedNat(Abs(v), Pow10(k));
      if v < 0 {
        RoundedOdd(Abs(v), Pow10(k), Abs(v) / Pow10(k) + (if Pow10(k) / 2 <= Abs(v) % Pow10(k) then 1 else 0));
      }
    }
  }

  /** Scaling down is odd, monotone, and off by at most half a unit. */
  lemma ScaleDownOrder(v: int, w: int, k: int)
    requires INT64_MIN < v <= w <= INT64_MAX && k >= 1
    ensures Rescale(-v, -k) == Ok(-Rescale(v, -k).value)
    ensures Rescale(v, -k).value <= Rescale(w, -k).value
    ensures 2 * Abs(v - Rescale(v, -k).value * Pow10(k)) <= Pow10(k)
  {
    ScaleDownOdd(v, k);
    ScaleDown(v, k);
    ScaleDown(w, k);
    RoundedMonotone(v, w, Pow10(k), Rescale(v, -k).value, Rescale(w, -k).value);
  }

  lemma ScaleDownOdd(v: int, k: int)
    requires INT64_MIN < v <= INT64_MAX && k >= 1
    ensures Rescale(-v, -k) == Ok(-Rescale(v, -k).value)
  {
    ScaleDown(v, k);
    ScaleDown(-v, k);
    RoundedOdd(v, Pow10(k), Rescale(v, -k).value);
    RoundedUnique(-v, Pow10(k), Rescale(-v, -k).value, -Rescale(v, -k).value);
  }

  /** Up by `k` and down by `k` is the identity. */
  lemma UpDown(v: int, k: int)
    requires k >= 0 && INT64_MIN < v <= INT64_MAX && Rescale(v, k).Ok?
    ensures Rescale(v, k).value > INT64_MIN
    ensures Rescale(Rescale(v, k).value, -k) == Ok(v)
  {
    ScaleUp(v, k);
    if k == 0 {
      assert Pow10(0) == 1;
    } else {
      var u := v * Pow10(k);
      MultipleOfTen(v, k);
      ScaleDown(u, k);
      assert IsRounded(u, Pow10(k), v);
      RoundedUnique(u, Pow10(k), Rescale(u, -k).value, v);
    }
  }

  lemma MultipleOfTen(v: int, k: nat)
    requires k >= 1
    ensures v * Pow10(k) != INT64_MIN
  {
    var x := v * Pow10(k - 1);
    assert v * Pow10(k) == 10 * x;
  }

  // ---------------------------------------------------------------- numeric literals

  /** A literal: sign, digits, and optionally a point and digits. */
  datatype Literal = Literal(neg: bool, whole: string, dot: bool, frac: string)

  predicate WellFormed(l: Literal) {
    && AllDigits(l.whole) && AllDigits(l.frac)
    && (!l.dot ==> l.frac == [])
    && (l.whole == [] ==> l.dot && !l.neg)   // `.5` is a literal, `-.5` is not
  }

  function Text(l: Literal): string {
    (if l.neg then ['-'] else []) + l.whole + (if l.dot then ['.'] + l.frac else [])
  }

  /** The digits before the point, counting the supplied zero of `.5`. */
  function WholeDigits(l: Literal): nat {
    if l.whole == [] then 1 else |l.whole|
  }

  /** The literal's magnitude is `Numerator / 10^|frac|`. */
  function Numerator(l: Literal): nat
    requires WellFormed(l)
  {
    Value(l.whole) * Pow10(|l.frac|) + Value(l.frac)
  }

  // ---------------------------------------------------------------- parse_numeric

  function Find(s: string, c: char): (i: nat)
    ensures i <= |s| && c !in s[..i] && (i < |s| ==> s[i] == c)
  {
    if s == [] || s[0] == c then 0
    else
      var i := 1 + Find(s[1..], c);
      assert s[..i] == [s[0]] + s[1..][..i - 1];
      i
  }

  lemma FindIs(s: string, c: char, i: nat)
    requires i <= |s| && c !in s[..i] && (i < |s| ==> s[i] == c)
    ensures Find(s, c) == i
  {
    var k := Find(s, c);
    assert forall j | 0 <= j < i :: s[..i][j] == s[j];
    assert forall j | 0 <= j < k :: s[..k][j] == s[j];
  }

  /** `std::stoll` on an optional minus sign and digits. */
  function Stoll(s: string): Result<int> {
    var neg := s != [] && s[0] == '-';
    var body := if neg then s[1..] else s;
    if body == [] || !AllDigits(body) then Thrown
    else
      var v: int := Value(body);
      var w := if neg then -v else v;
      if Fits(w) then Ok(w) else Thrown
  }

  /** The parsed value, and the type information that is set from the literal. */
  datatype Numeric = Numeric(value: int, scale: nat, dimension: nat)

  /** The fraction that is kept: its digits, and whether the first one dropped rounds it up. */
  datatype Kept = Kept(digits: string, up: bool)

  /** At most 18 digits in all; with 18 or more before the point, a single zero is kept. */
  function KeepFraction(after: string, wholeDigits: nat): Result<Kept> {
    if after == [] || |after| + wholeDigits <= MAX_DIGITS then Ok(Kept(after, false))
    else if wholeDigits >= MAX_DIGITS then Ok(Kept("0", false))
    else
      var next := Stoll([after[MAX_DIGITS - wholeDigits]]);
      if next.Thrown? then Thrown else Ok(Kept(after[..MAX_DIGITS - wholeDigits], next.value >= 5))
  }

  /** The text before and after the point; a literal without a point counts one zero after it. */
  function Split(s: string): (string, string) {
    var dot := Find(s, '.');
    if dot == |s| then (s, "0") else (if dot == 0 then "0" else s[..dot], s[dot + 1..])
  }

  /** `parse_numeric` for a type without a preset dimension. */
  function ParseNumeric(s: string): Result<Numeric> {
    var (before, after) := Split(s);
    var neg := '-' in before;
    var whole := Stoll(before);
    if whole.Thrown? || whole.value == INT64_MIN then Thrown
    else ParseAfter(neg, Abs(whole.value), |before| - (if neg then 1 else 0), after)
  }

  function ParseAfter(neg: bool, whole: nat, wholeDigits: nat, after: string): Result<Numeric>
    requires whole <= INT64_MAX
  {
    var kept := KeepFraction(after, wholeDigits);
    if kept.Thrown? then Thrown
    else
      var fraction := if kept.value.digits == [] then Ok(0) else Stoll(kept.value.digits);
      var scale := |kept.value.digits|;
      var scaled := Rescale(whole, scale);
      if fraction.Thrown? || scaled.Thrown? then Thrown
      else
        var magnitude := scaled.value + fraction.value + (if kept.value.up then 1 else 0);
        Ok(Numeric(if neg then -magnitude else magnitude, scale, wholeDigits + scale))
  }

  /** The same, the way the source goes about it: one variable after another is rewritten. */
  method ParseNumericInto(s: string) returns (r: Result<Numeric>)
    ensures r == ParseNumeric(s)
  {
    var (before, after) := Split(s);
    var neg := '-' in before;
    var stoll := Stoll(before);
    if stoll.Thrown? || stoll.value == INT64_MIN {
      return Thrown;
    }
    r := ParseAfterInto(neg, Abs(stoll.value), |before| - (if neg then 1 else 0), after);
  }

  method ParseAfterInto(neg: bool, whole: nat, wholeDigits: nat, afterDot: string) returns (r: Result<Numeric>)
    requires whole <= INT64_MAX
    ensures r == ParseAfter(neg, whole, wholeDigits, afterDot)
  {
    var after := afterDot;
    var nextDigit := 0;
    if after != [] && |after| + wholeDigits > MAX_DIGITS {
      if wholeDigits >= MAX_DIGITS {
        after := "0";
      } else {
        var next := Stoll([after[MAX_DIGITS - wholeDigits]]);
        if next.Thrown? {
          return Thrown;
        }
        nextDigit := next.value;
        after := after[..MAX_DIGITS - wholeDigits];
      }
    }
    var fraction := if after == [] then Ok(0) else Stoll(after);
    var result := Rescale(whole, |after|);
    if fraction.Thrown? || result.Thrown? {
      return Thrown;
    }
    var magnitude := result.value + fraction.value + (if nextDigit >= 5 then 1 else 0);
    return Ok(Numeric(if neg then -magnitude else magnitude, |after|, wholeDigits + |after|));
  }

  // ---------------------------------------------------------------- what the parse means

  lemma SplitText(l: Literal)
    requires WellFormed(l)
    ensures Split(Text(l)) ==
            ((if l.whole == [] then "0" else (if l.neg then ['-'] else []) + l.whole), if l.dot then l.frac else "0")
  {
    var head := (if l.neg then ['-'] else []) + l.whole;
    var s := Text(l);
    assert s[..|head|] == head;
    assert forall c | c in head :: c == '-' || IsDigit(c);
    FindIs(s, '.', |head|);
    if l.dot {
      assert s[|head| + 1..] == l.frac;
    } else {
      assert s == head;
    }
  }

  lemma StollText(neg: bool, digits: string)
    requires digits != [] && AllDigits(digits)
    ensures var s, w := (if neg then ['-'] else []) + digits, if neg then 0 - Value(digits) else Value(digits);
            Stoll(s) == (if Fits(w) then Ok(w) else Thrown) && ('-' in s <==> neg)
  {
    var s := (if neg then ['-'] else []) + digits;
    if neg {
      assert s[1..] == digits;
    } else {
      assert s == digits;
      assert forall i | 0 <= i < |s| :: IsDigit(s[i]);
    }
  }

  lemma WholeFits(whole: string)
    requires AllDigits(whole) && |whole| <= 18
    ensures Value(whole) < Pow10(18) == 1_000_000_000_000_000_000
  {
    ValueBound(whole);
    Pow10Monotone(|whole|, 18);
    Pow10Nineteen();
  }

  /** What `stoll` makes of the text before the point. */
  lemma WholeText(l: Literal, before: string)
    requires WellFormed(l) && before == if l.whole == [] then "0" else (if l.neg then ['-'] else []) + l.whole
    ensures if Value(l.whole) <= INT64_MAX
            then Stoll(before) == Ok(if l.neg then 0 - Value(l.whole) else Value(l.whole))
            else Stoll(before) in {Thrown, Ok(INT64_MIN)}
    ensures '-' in before <==> l.neg
    ensures |before| - (if l.neg then 1 else 0) == WholeDigits(l)
  {
    if l.whole == [] {
      StollDigits("0");
      assert "0"[..0] == [];
    } else {
      StollText(l.neg, l.whole);
    }
  }

  /** On a literal the parse comes down to digits. */
  lemma ParseText(l: Literal)
    requires WellFormed(l)
    ensures ParseNumeric(Text(l)) ==
            if Value(l.whole) <= INT64_MAX then ParseAfter(l.neg, Value(l.whole), WholeDigits(l), if l.dot then l.frac else "0")
            else Thrown
  {
    SplitText(l);
    ParseParts(Text(l), l);
  }

  lemma ParseParts(s: string, l: Literal)
    requires WellFormed(l)
    requires Split(s) == ((if l.whole == [] then "0" else (if l.neg then ['-'] else []) + l.whole), if l.dot then l.frac else "0")
    ensures ParseNumeric(s) ==
            if Value(l.whole) <= INT64_MAX then ParseAfter(l.neg, Value(l.whole), WholeDigits(l), if l.dot then l.frac else "0")
            else Thrown
  {
    WholeText(l, Split(s).0);
  }

  /** The first dropped digit decides the rounding of everything that is dropped. */
  lemma DroppedDigits(rest: string)
    requires rest != [] && AllDigits(rest)
    ensures Value(rest) < Pow10(|rest|)
    ensures DigitValue(rest[0]) >= 5 <==> 2 * Value(rest) >= Pow10(|rest|)
  {
    var first, others := rest[..1], rest[1..];
    assert rest == first + others;
    ValueConcat(first, others);
    ValueBound(others);
    assert Value(first) == DigitValue(rest[0]) by {
      assert first[..0] == [];
    }
    assert Pow10(|rest|) == 10 * Pow10(|others|);
    var d, p := DigitValue(rest[0]), Pow10(|others|);
    DigitCases(d, p);
  }

  lemma DigitCases(d: nat, p: nat)
    requires d <= 9 && p >= 1
    ensures d >= 5 ==> 2 * (d * p) >= 10 * p
    ensures d <= 4 ==> 2 * (d * p) <= 8 * p
    ensures d * p <= 9 * p
  {
  }

  /** m units plus a remainder, rounded half up, at any finer scale. */
  lemma RoundUp(m: nat, p: nat, r: nat, q: nat)
    requires p >= 2 && p % 2 == 0 && q >= 1 && r < p
    ensures IsRounded((m * p + r) * q, p * q, if 2 * r >= p then m + 1 else m)
  {
    var v := (m * p + r) * q;
    assert v == m * (p * q) + r * q;
    assert (m + 1) * (p * q) == m * (p * q) + p * q;
    assert p * q - r * q == (p - r) * q;
    RoundScaled(r, p, q);
  }

  lemma RoundScaled(r: nat, p: nat, q: nat)
    requires q >= 1 && r < p
    ensures 2 * r >= p ==> 2 * ((p - r) * q) <= p * q
    ensures 2 * r < p ==> 2 * (r * q) < p * q
  {
    if 2 * r >= p {
      assert (2 * (p - r)) * q <= p * q;
    } else {
      assert (2 * r) * q < p * q;
    }
  }

  lemma StollDigits(digits: string)
    requires digits != [] && AllDigits(digits) && |digits| <= 18
    ensures Stoll(digits) == Ok(Value(digits))
  {
    StollText(false, digits);
    assert [] + digits == digits;
    WholeFits(digits);
  }

  /** The pieces put together. */
  lemma Assembled(neg: bool, whole: nat, wholeDigits: nat, after: string, kept: Kept, fraction: int, scaled: int)
    requires whole <= INT64_MAX && KeepFraction(after, wholeDigits) == Ok(kept)
    requires if kept.digits == [] then fraction == 0 else Stoll(kept.digits) == Ok(fraction)
    requires Rescale(whole, |kept.digits|) == Ok(scaled)
    ensures var m := scaled + fraction + (if kept.up then 1 else 0);
            ParseAfter(neg, whole, wholeDigits, after) == Ok(Numeric(if neg then -m else m, |kept.digits|, wholeDigits + |kept.digits|))
  {
  }

  /** The whole part makes room for the fraction without overflow. */
  lemma MakeRoom(whole: string, digits: string) returns (scaled: int)
    requires AllDigits(whole) && AllDigits(digits) && |whole| + |digits| <= 18
    ensures Value(whole) <= INT64_MAX && Rescale(Value(whole), |digits|) == Ok(scaled)
    ensures scaled == Value(whole) * Pow10(|digits|) && 0 <= scaled + Value(digits) < Pow10(18)
  {
    scaled := RoomFor(whole, digits);
    ScaleUp(Value(whole), |digits|);
  }

  lemma RoomFor(whole: string, digits: string) returns (scaled: int)
    requires AllDigits(whole) && AllDigits(digits) && |whole| + |digits| <= 18
    ensures Value(whole) <= INT64_MAX && scaled == Value(whole) * Pow10(|digits|)
    ensures 0 <= scaled && scaled + Value(digits) < Pow10(18) && Fits(scaled)
  {
    ValueConcat(whole, digits);
    WholeFits(whole + digits);
    WholeFits(whole);
    scaled := Value(whole) * Pow10(|digits|);
    ProductNat(Value(whole), Pow10(|digits|));
  }

  /** Keeping all fraction digits: exact. */
  lemma KeepAll(whole: string, frac: string, wholeDigits: nat, neg: bool) returns (m: int)
    requires AllDigits(whole) && AllDigits(frac) && |whole| <= wholeDigits && |frac| + wholeDigits <= 18
    ensures Value(whole) <= INT64_MAX
    ensures m == Value(whole) * Pow10(|frac|) + Value(frac) && 0 <= m < Pow10(18)
    ensures ParseAfter(neg, Value(whole), wholeDigits, frac) == Ok(Numeric(if neg then -m else m, |frac|, wholeDigits + |frac|))
  {
    var scaled := MakeRoom(whole, frac);
    if frac != [] {
      StollDigits(frac);
    }
    m := scaled + Value(frac);
    Assembled(neg, Value(whole), wholeDigits, frac, Kept(frac, false), Value(frac), scaled);
  }

  /** Dropping fraction digits: the kept ones are rounded by the first one dropped. */
  lemma KeepSome(whole: string, kept: string, rest: string, neg: bool) returns (m: int)
    requires AllDigits(whole) && AllDigits(kept) && AllDigits(rest) && rest != []
    requires |kept| >= 1 && |whole| + |kept| <= 18 && |kept| <= 17
    ensures Value(whole) <= INT64_MAX
    ensures m == Value(whole) * Pow10(|kept|) + Value(kept) + (if 2 * Value(rest) >= Pow10(|rest|) then 1 else 0)
    ensures 0 <= m <= Pow10(18)
    ensures ParseAfter(neg, Value(whole), 18 - |kept|, kept + rest) == Ok(Numeric(if neg then -m else m, |kept|, 18))
  {
    var scaled := MakeRoom(whole, kept);
    m := KeptParse(Value(whole), kept, rest, neg, scaled);
  }

  lemma KeptParse(whole: nat, kept: string, rest: string, neg: bool, scaled: int) returns (m: int)
    requires AllDigits(kept) && AllDigits(rest) && rest != [] && 1 <= |kept| <= 17
    requires whole <= INT64_MAX && Rescale(whole, |kept|) == Ok(scaled)
    ensures m == scaled + Value(kept) + (if 2 * Value(rest) >= Pow10(|rest|) then 1 else 0)
    ensures ParseAfter(neg, whole, 18 - |kept|, kept + rest) == Ok(Numeric(if neg then -m else m, |kept|, 18))
  {
    var up := RoundingDigit(kept, rest);
    StollDigits(kept);
    m := scaled + Value(kept) + (if up then 1 else 0);
    Assembled(neg, whole, 18 - |kept|, kept + rest, Kept(kept, up), Value(kept), scaled);
  }

  lemma RoundingDigit(kept: string, rest: string) returns (up: bool)
    requires 1 <= |kept| <= 17 && rest != [] && AllDigits(rest)
    ensures up == (2 * Value(rest) >= Pow10(|rest|)) && KeepFraction(kept + rest, 18 - |kept|) == Ok(Kept(kept, up))
  {
    DroppedDigits(rest);
    up := 2 * Value(rest) >= Pow10(|rest|);
    KeptOf(kept, rest, up);
  }

  lemma KeptOf(kept: string, rest: string, up: bool)
    requires 1 <= |kept| <= 17 && rest != [] && IsDigit(rest[0]) && up == (DigitValue(rest[0]) >= 5)
    ensures KeepFraction(kept + rest, 18 - |kept|) == Ok(Kept(kept, up))
  {
    var after := kept + rest;
    assert after[|kept|] == rest[0] && after[..|kept|] == kept;
    StollDigits([rest[0]]);
    assert [rest[0]][..0] == [];
  }

  /** The number of fraction digits that are kept. */
  function KeptScale(l: Literal): nat
    requires WholeDigits(l) < 18
  {
    if !l.dot then 1 else if |l.frac| + WholeDigits(l) <= 18 then |l.frac| else 18 - WholeDigits(l)
  }

  /** `n` is the literal rounded half away from zero at its scale, with its sign; exact if the
      literal has at most 18 digits. */
  predicate Denotes(n: Numeric, l: Literal)
    requires WellFormed(l)
  {
    && (if l.neg then n.value <= 0 else n.value >= 0)
    && IsRounded(Numerator(l) * Pow10(n.scale), Pow10(|l.frac|), Abs(n.value))
    && (|l.frac| + WholeDigits(l) <= 18 ==> Abs(n.value) * Pow10(|l.frac|) == Numerator(l) * Pow10(n.scale))
  }

  /** The parse result is right: at most 18 digits, in range, and what the literal says. */
  predicate Right(r: Result<Numeric>, l: Literal)
    requires WellFormed(l) && WholeDigits(l) < 18
  {
    && r.Ok?
    && r.value.scale == KeptScale(l) && r.value.dimension == WholeDigits(l) + r.value.scale <= 18
    && Abs(r.value.value) <= Pow10(18)
    && Denotes(r.value, l)
  }

  /** A numeric literal with fewer than 18 digits before the point: the value is the literal,
      rounded half away from zero to at most 18 digits in all -- a carry into the whole part
      included -- exact if it fits, and never out of range. */
  lemma ParseRounds(l: Literal)
    requires WellFormed(l) && WholeDigits(l) < 18
    ensures Right(ParseNumeric(Text(l)), l)
  {
    ParseText(l);
    WholeFits(l.whole);
    if !l.dot {
      RightWhole(l);
    } else if |l.frac| + WholeDigits(l) <= 18 {
      RightExact(l);
    } else {
      RightRounded(l);
    }
  }

  lemma RightWhole(l: Literal)
    requires WellFormed(l) && !l.dot && WholeDigits(l) < 18 && Value(l.whole) <= INT64_MAX
    ensures Right(ParseAfter(l.neg, Value(l.whole), WholeDigits(l), "0"), l)
  {
    var m := KeepAll(l.whole, "0", WholeDigits(l), l.neg);
    WholeExact(l, m);
    DenotesExact(l, m, 1, WholeDigits(l) + 1);
  }

  lemma RightExact(l: Literal)
    requires WellFormed(l) && l.dot && WholeDigits(l) < 18 && |l.frac| + WholeDigits(l) <= 18 && Value(l.whole) <= INT64_MAX
    ensures Right(ParseAfter(l.neg, Value(l.whole), WholeDigits(l), l.frac), l)
  {
    var m := KeepAll(l.whole, l.frac, WholeDigits(l), l.neg);
    RightFromExact(ParseAfter(l.neg, Value(l.whole), WholeDigits(l), l.frac), l, m);
  }

  lemma RightFromExact(res: Result<Numeric>, l: Literal, m: nat)
    requires WellFormed(l) && l.dot && WholeDigits(l) < 18 && |l.frac| + WholeDigits(l) <= 18
    requires m == Numerator(l) <= Pow10(18)
    requires res == Ok(Numeric(if l.neg then 0 - m else m, |l.frac|, WholeDigits(l) + |l.frac|))
    ensures Right(res, l)
  {
    DenotesExact(l, m, |l.frac|, WholeDigits(l) + |l.frac|);
  }

  lemma WholeExact(l: Literal, m: int)
    requires WellFormed(l) && !l.dot && AllDigits("0") && m == Value(l.whole) * Pow10(1) + Value("0")
    ensures m * Pow10(|l.frac|) == Numerator(l) * Pow10(1)
  {
    assert "0"[..0] == [];
    assert Pow10(0) == 1 && Pow10(1) == 10;
  }

  lemma DenotesExact(l: Literal, m: nat, scale: nat, dimension: nat)
    requires WellFormed(l) && m * Pow10(|l.frac|) == Numerator(l) * Pow10(scale)
    ensures Denotes(Numeric(if l.neg then 0 - m else m, scale, dimension), l)
  {
  }

  /** The case in which fraction digits are dropped. */
  lemma RightRounded(l: Literal)
    requires WellFormed(l) && l.dot && WholeDigits(l) < 18 && |l.frac| + WholeDigits(l) > 18 && Value(l.whole) <= INT64_MAX
    ensures Right(ParseAfter(l.neg, Value(l.whole), WholeDigits(l), l.frac), l)
  {
    var scale := 18 - WholeDigits(l);
    var kept, rest := l.frac[..scale], l.frac[scale..];
    assert l.frac == kept + rest;
    var m := KeepSome(l.whole, kept, rest, l.neg);
    RoundsLiteral(l, kept, rest, m);
    RightFrom(ParseAfter(l.neg, Value(l.whole), WholeDigits(l), l.frac), l, m, scale);
  }

  lemma RightFrom(res: Result<Numeric>, l: Literal, m: nat, scale: nat)
    requires WellFormed(l) && l.dot && WholeDigits(l) < 18 && |l.frac| + WholeDigits(l) > 18 && scale == 18 - WholeDigits(l)
    requires m <= Pow10(18) && res == Ok(Numeric(if l.neg then 0 - m else m, scale, 18))
    requires IsRounded(Numerator(l) * Pow10(scale), Pow10(|l.frac|), m)
    ensures Right(res, l)
  {
    DenotesFrom(l, m, scale);
  }

  lemma DenotesFrom(l: Literal, m: nat, scale: nat)
    requires WellFormed(l) && |l.frac| + WholeDigits(l) > 18
    requires IsRounded(Numerator(l) * Pow10(scale), Pow10(|l.frac|), m)
    ensures Denotes(Numeric(if l.neg then 0 - m else m, scale, 18), l)
  {
  }

  lemma RoundsLiteral(l: Literal, kept: string, rest: string, m: int)
    requires WellFormed(l) && l.frac == kept + rest && rest != [] && AllDigits(kept) && AllDigits(rest)
    requires m == Value(l.whole) * Pow10(|kept|) + Value(kept) + (if 2 * Value(rest) >= Pow10(|rest|) then 1 else 0)
    ensures IsRounded(Numerator(l) * Pow10(|kept|), Pow10(|l.frac|), m)
  {
    var x := LiteralParts(l, kept, rest);
    Pow10Even(|rest|);
    RoundArith(x.n, x.w, x.frac, x.k, x.r, x.pq, x.p, x.q, m);
  }

  lemma RoundArith(n: nat, w: nat, f: nat, k: nat, r: nat, pq: nat, p: nat, q: nat, m: int)
    requires n == w * pq + f && pq == p * q && f == k * p + r && r < p && p >= 2 && p % 2 == 0 && q >= 1
    requires m == w * q + k + (if 2 * r >= p then 1 else 0)
    ensures IsRounded(n * q, pq, m)
  {
    Regroup(w, k, r, p, q);
    RoundUp(w * q + k, p, r, q);
  }

  lemma Regroup(w: int, k: int, r: int, p: int, q: int)
    ensures (w * q + k) * p + r == w * (p * q) + (k * p + r)
  {
    assert w * (p * q) == (w * q) * p;
  }

  // ---------------------------------------------------------------- 18 and more whole digits

  /** The whole part at this scale, 0 or 1, or an exception if that does not fit. */
  predicate Dropped(r: Result<Numeric>, whole: nat, scale: nat, wholeDigits: nat, neg: bool) {
    var m := if scale == 0 then whole else whole * 10;
    r == if Fits(m) then Ok(Numeric(if neg then 0 - m else m, scale, wholeDigits + scale)) else Thrown
  }

  /** With 18 or more digits before the point the fraction is not rounded but dropped: the scale is 1,
      or 0 if there is a point with nothing after it. */
  lemma LongWhole(l: Literal)
    requires WellFormed(l) && |l.whole| >= 18
    ensures Dropped(ParseNumeric(Text(l)), Value(l.whole), if l.dot && l.frac == [] then 0 else 1, |l.whole|, l.neg)
  {
    ParseText(l);
    var after := if l.dot then l.frac else "0";
    if Value(l.whole) <= INT64_MAX {
      DropAll(Value(l.whole), |l.whole|, l.neg, after);
    }
  }

  lemma DropAll(whole: nat, wholeDigits: nat, neg: bool, after: string)
    requires whole <= INT64_MAX && wholeDigits >= 18
    ensures Dropped(ParseAfter(neg, whole, wholeDigits, after), whole, if after == [] then 0 else 1, wholeDigits, neg)
  {
    if after == [] {
      NothingToDrop(whole, wholeDigits, neg);
    } else {
      DropSome(whole, wholeDigits, neg, after);
    }
  }

  lemma NothingToDrop(whole: nat, wholeDigits: nat, neg: bool)
    requires whole <= INT64_MAX
    ensures Dropped(ParseAfter(neg, whole, wholeDigits, []), whole, 0, wholeDigits, neg)
  {
    ScaleUp(whole, 0);
    assert Pow10(0) == 1;
  }

  lemma DropSome(whole: nat, wholeDigits: nat, neg: bool, after: string)
    requires whole <= INT64_MAX && wholeDigits >= 18 && after != []
    ensures Dropped(ParseAfter(neg, whole, wholeDigits, after), whole, 1, wholeDigits, neg)
  {
    StollDigits("0");
    assert "0"[..0] == [];
    assert Pow10(1) == 10;
    ScaleUp(whole, 1);
  }

  /** So the value is the rounded literal exactly when the dropped fraction is less than 0.05. */
  lemma LongWholeRounds(l: Literal)
    requires WellFormed(l) && |l.whole| >= 18 && l.dot && l.frac != []
    ensures IsRounded(Numerator(l) * 10, Pow10(|l.frac|), Value(l.whole) * 10) <==> 20 * Value(l.frac) < Pow10(|l.frac|)
  {
    var w, f, p := Value(l.whole), Value(l.frac), Pow10(|l.frac|);
    assert Numerator(l) * 10 - w * 10 * p == 10 * f by {
      assert (w * p + f) * 10 == w * 10 * p + 10 * f;
    }
    LongArith(w, f, p);
  }

  lemma LongArith(w: nat, f: nat, p: nat)
    requires p >= 1
    ensures IsRounded((w * p + f) * 10, p, w * 10) <==> 20 * f < p
  {
    assert (w * p + f) * 10 == w * 10 * p + 10 * f;
    assert Abs(w * 10 * p) <= Abs((w * p + f) * 10);
  }

  // ---------------------------------------------------------------- a preset scale

  /** `parse_numeric` for a type with a scale: parse first, then rescale. */
  function ParseNumericAs(s: string, scale: nat): Result<int> {
    RescaleTo(ParseNumeric(s), scale)
  }

  function RescaleTo(n: Result<Numeric>, scale: nat): Result<int> {
    if n.Thrown? || !(INT64_MIN < n.value.value <= INT64_MAX) then Thrown else Rescale(n.value.value, scale - n.value.scale)
  }

  /** Rounding twice is rounding once, unless the first rounding went up to a tie of the second. */
  lemma RoundTwice(v: nat, d: nat, m: nat, q: nat, r: nat)
    requires d >= 1 && q >= 2 && q % 2 == 0 && IsRounded(v, d, m) && IsRounded(m, q, r)
    ensures IsRounded(v, d * q, r) <==> !(2 * (r * q - m) == q && v < m * d)
  {
    var rq, md, rqd, qd := r * q, m * d, r * (d * q), d * q;
    RegroupProducts(d, m, q, r);
    if 2 * Abs(m - rq) < q {
      Multiples2(m - rq, q, d);
      NotTie(v, md, rqd, d, qd);
    } else {
      TieArith(m - rq, q, d);
      AtLeastOne(q, d);
      Tie(v, md, rqd, d, qd);
    }
  }

  lemma RegroupProducts(d: int, m: int, q: int, r: int)
    ensures (m - r * q) * d == m * d - r * (d * q) && q * d == d * q
  {
    assert r * (d * q) == (r * q) * d;
  }

  lemma AtLeastOne(q: int, d: int)
    requires q >= 2 && d >= 1
    ensures q * d >= 2 * d
  {
  }

  lemma NotTie(v: int, md: int, rqd: int, d: int, qd: int)
    requires d >= 1 && 2 * Abs(v - md) <= d && 2 * Abs(md - rqd) <= qd - 2 * d
    ensures 2 * Abs(v - rqd) < qd
  {
  }

  lemma Tie(v: int, md: int, rqd: int, d: int, qd: int)
    requires d >= 1 && qd >= 2 * d && 2 * Abs(v - md) <= d && 2 * (md - rqd) == -qd && v >= 0
    ensures v < md ==> 2 * Abs(v - rqd) > qd
    ensures v >= md ==> 2 * Abs(v - rqd) <= qd && rqd > v
  {
  }

  lemma AbsTimes(h: int, d: int)
    requires d >= 1
    ensures Abs(h * d) == Abs(h) * d
  {
    if h >= 0 {
      NonNegative(h, d);
    } else {
      NonNegative(-h, d);
      assert (-h) * d == -(h * d);
    }
  }

  lemma NonNegative(a: int, d: int)
    requires a >= 0 && d >= 0
    ensures a * d >= 0
  {
  }

  /** Twice a distance below q, for even q, leaves room for one more d. */
  lemma Multiples2(h: int, q: int, d: int)
    requires d >= 1 && q % 2 == 0 && 2 * Abs(h) < q
    ensures 2 * Abs(h * d) <= q * d - 2 * d
  {
    AbsTimes(h, d);
    NonNegative(q - 2 - 2 * Abs(h), d);
    assert (q - 2 - 2 * Abs(h)) * d == q * d - 2 * d - 2 * (Abs(h) * d);
  }

  lemma TieArith(h: int, q: int, d: int)
    requires 2 * Abs(h) == q
    ensures 2 * (h * d) == (if h >= 0 then q * d else -(q * d))
  {
  }

  /** `r` is `v / (d * q)` rounded by way of `m`: right unless `m` is a tie that `v` does not reach. */
  predicate RoundsUnlessTie(v: int, d: int, m: int, q: int, r: int) {
    && IsRounded(m, q, r)
    && (IsRounded(v, d * q, r) <==> !(2 * (r * q - m) == q && v < m * d))
  }

  /** Digit `i` after the point; there are zeros beyond the end. */
  function FractionDigit(frac: string, i: nat): char {
    if i < |frac| then frac[i] else '0'
  }

  predicate AllAre(frac: string, from: nat, to: nat, c: char) {
    forall i | from <= i < to :: FractionDigit(frac, i) == c
  }

  /** Kept digits beyond the scale that round twice the wrong way: a 4 and then nines, rounded up by the
      first digit that is not kept. */
  predicate RoundsAstray(frac: string, scale: nat, kept: nat)
    requires scale < kept
  {
    FractionDigit(frac, scale) == '4' && AllAre(frac, scale + 1, kept, '9') && FractionDigit(frac, kept) >= '5'
  }

  /** Digits up to the scale that are not kept and whose loss does not show: zeros that stay zeros, or nines
      that are carried away. */
  predicate LostHarmlessly(frac: string, kept: nat, scale: nat)
    requires kept <= scale
  {
    || (AllAre(frac, kept, scale, '0') && FractionDigit(frac, scale) < '5')
    || (AllAre(frac, kept, scale, '9') && FractionDigit(frac, scale) >= '5')
  }

  /** The literals that are read wrong at a scale: too many digits to keep, and either rounded twice the wrong
      way, or wanted at more digits than are kept. */
  predicate ReadAstray(l: Literal, scale: nat)
    requires WholeDigits(l) < 18
  {
    && |l.frac| + WholeDigits(l) > 18
    && var kept := KeptScale(l);
       if scale < kept then RoundsAstray(l.frac, scale, kept) else !LostHarmlessly(l.frac, kept, scale)
  }

  /** A tie of the second rounding. */
  lemma TieMod(m: nat, q: nat, r: int)
    requires q >= 2 && q % 2 == 0 && IsRounded(m, q, r)
    ensures 2 * (r * q - m) == q <==> m % q == q / 2
  {
    var k, x := m / q, m % q;
    assert m == k * q + x;
    assert r * q - m == (r - k) * q - x;
    Multiples(r - k, q);
  }

  /** A 4 and nines. */
  lemma {:induction false} FourNines(s: string)
    requires AllDigits(s) && s != []
    ensures 2 * (Value(s) + 1) == Pow10(|s|) <==> s[0] == '4' && forall i | 1 <= i < |s| :: s[i] == '9'
    decreases |s|
  {
    var n := |s| - 1;
    if n == 0 {
      assert s[..0] == [];
    } else {
      FourNines(s[..n]);
      assert Value(s) == 10 * Value(s[..n]) + DigitValue(s[n]);
      assert s[..n][0] == s[0];
      if forall i | 1 <= i < n :: s[i] == '9' {
        assert forall i | 1 <= i < n :: s[..n][i] == '9';
      }
      if forall i | 1 <= i < n :: s[..n][i] == '9' {
        assert forall i | 1 <= i < n :: s[i] == s[..n][i];
      }
    }
  }

  /** The kept digits beyond the scale are what the second rounding looks at. */
  lemma KeptMod(whole: nat, kept: string, scale: nat, m: nat, up: nat)
    requires AllDigits(kept) && scale < |kept| && up <= 1 && m == whole * Pow10(|kept|) + Value(kept) + up
    ensures var q := Pow10(|kept| - scale);
            up == 1 ==> (m % q == q / 2 <==> 2 * (Value(kept[scale..]) + 1) == q)
  {
    var j := |kept| - scale;
    var q, low := Pow10(j), Value(kept[scale..]);
    assert kept == kept[..scale] + kept[scale..];
    ValueConcat(kept[..scale], kept[scale..]);
    ValueBound(kept[scale..]);
    Pow10Sum(scale, j);
    Pow10Even(j);
    Gather(whole, Pow10(scale), q, Value(kept[..scale]), low, m, up);
    ModOf(m, q, whole * Pow10(scale) + Value(kept[..scale]), low + up);
  }

  lemma Gather(whole: nat, p: nat, q: nat, high: nat, low: nat, m: nat, up: nat)
    requires m == whole * (p * q) + (high * q + low) + up
    ensures m == (whole * p + high) * q + (low + up)
  {
    assert whole * (p * q) == whole * p * q;
  }

  lemma ModOf(m: nat, q: nat, k: nat, x: nat)
    requires q >= 2 && q % 2 == 0 && m == k * q + x && x <= q
    ensures m % q == q / 2 <==> 2 * x == q
  {
    var y := m % q;
    assert m == m / q * q + y;
    assert (m / q - k) * q == x - y;
    Multiples(m / q - k, q);
  }

  /** The first rounding went up exactly if the value is below its result. */
  lemma WentUp(f: int, rest: int, p: int, q: int, up: int, v: int, m: int, d: int)
    requires p >= 1 && q >= 1 && 0 <= rest < p && 0 <= up <= 1 && v == (f * p + rest) * q && m == f + up && d == p * q
    ensures v < m * d <==> up == 1
  {
    assert m * d == (f * p + up * p) * q;
    assert m * d - v == (up * p - rest) * q;
    Multiples(up * p - rest, q);
  }

  lemma ScaleRounded(v: int, p: int, q: int, r: int)
    requires p >= 1 && q >= 1
    ensures IsRounded(v * q, p * q, r) <==> IsRounded(v, p, r)
  {
    assert r * (p * q) == r * p * q;
    ScaleAll(v, p, r * p, q);
  }

  lemma ScaleAll(v: int, p: int, rp: int, q: int)
    requires p >= 1 && q >= 1
    ensures 2 * Abs(v * q - rp * q) <= p * q <==> 2 * Abs(v - rp) <= p
    ensures 2 * Abs(v * q - rp * q) == p * q <==> 2 * Abs(v - rp) == p
    ensures Abs(rp * q) > Abs(v * q) <==> Abs(rp) > Abs(v)
  {
    assert v * q - rp * q == (v - rp) * q;
    AbsTimes(v - rp, q);
    assert 2 * (Abs(v - rp) * q) == (2 * Abs(v - rp)) * q;
    TimesOrder(2 * Abs(v - rp), p, q);
    AbsTimes(rp, q);
    AbsTimes(v, q);
    TimesOrder(Abs(rp), Abs(v), q);
  }

  lemma TimesOrder(a: int, b: int, q: int)
    requires q >= 1
    ensures a <= b <==> a * q <= b * q
    ensures a == b <==> a * q == b * q
  {
    assert b * q - a * q == (b - a) * q;
    Multiples(b - a, q);
  }

  /** When the parse result `m` of a long literal is a tie it does not reach, in terms of its digits. */
  lemma AstrayIff(l: Literal, scale: nat, m: nat, r: int)
    requires WellFormed(l) && WholeDigits(l) < 18 && scale < KeptScale(l) && |l.frac| + WholeDigits(l) > 18
    requires IsRounded(Numerator(l) * Pow10(KeptScale(l)), Pow10(|l.frac|), m) && IsRounded(m, Pow10(KeptScale(l) - scale), r)
    ensures var q := Pow10(KeptScale(l) - scale);
            (2 * (r * q - m) == q && Numerator(l) * Pow10(KeptScale(l)) < m * Pow10(|l.frac|)) <==>
            RoundsAstray(l.frac, scale, KeptScale(l))
  {
    var k := KeptScale(l);
    var kept, rest := l.frac[..k], l.frac[k..];
    assert l.frac == kept + rest && AllDigits(kept) && AllDigits(rest);
    var up := LongRounding(l, kept, rest, m);
    Pow10Even(k - scale);
    TieMod(m, Pow10(k - scale), r);
    KeptMod(Value(l.whole), kept, scale, m, up);
    assert kept[scale..] == l.frac[scale..k];
    FourNines(l.frac[scale..k]);
    SliceDigits(l.frac, scale, k);
  }

  lemma SliceDigits(s: string, from: nat, to: nat)
    requires from < to <= |s|
    ensures var t := s[from..to];
            (t[0] == '4' && forall i | 1 <= i < |t| :: t[i] == '9') <==> (s[from] == '4' && AllAre(s, from + 1, to, '9'))
  {
    var t := s[from..to];
    forall i | 1 <= i < |t|
      ensures t[i] == FractionDigit(s, i + from)
    {
    }
    if forall i | 1 <= i < |t| :: t[i] == '9' {
      forall i | from < i < to
        ensures FractionDigit(s, i) == '9'
      {
        assert t[i - from] == s[i];
      }
    }
  }

  lemma LongRounding(l: Literal, kept: string, rest: string, m: nat) returns (up: nat)
    requires WellFormed(l) && l.frac == kept + rest && rest != [] && AllDigits(kept) && AllDigits(rest)
    requires IsRounded(Numerator(l) * Pow10(|kept|), Pow10(|l.frac|), m)
    ensures up <= 1 && (up == 1 <==> rest[0] >= '5') && m == Value(l.whole) * Pow10(|kept|) + Value(kept) + up
    ensures Numerator(l) * Pow10(|kept|) < m * Pow10(|l.frac|) <==> up == 1
  {
    DroppedDigits(rest);
    var x := LiteralParts(l, kept, rest);
    up := if 2 * x.r >= x.p then 1 else 0;
    Pow10Even(|rest|);
    PartsRound(x, up, m);
  }

  lemma PartsRound(x: Parts, up: int, m: int)
    requires PartsAre(x) && up == (if 2 * x.r >= x.p then 1 else 0) && IsRounded(x.n * x.q, x.pq, m)
    requires x.p >= 2 && x.p % 2 == 0 && x.w >= 0 && x.k >= 0 && x.n >= 0 && x.frac >= 0 && x.pq >= 1
    ensures m == x.w * x.q + x.k + up
    ensures x.n * x.q < m * x.pq <==> up == 1
  {
    var f := x.w * x.q + x.k;
    RoundArith(x.n, x.w, x.frac, x.k, x.r, x.pq, x.p, x.q, f + up);
    RoundedUnique(x.n * x.q, x.pq, m, f + up);
    UpArith(x, f, up, m);
  }

  /** The literal in numbers: whole part, kept and dropped digits, and the powers of ten behind them. */
  datatype Parts = Parts(w: int, k: int, r: int, p: int, q: int, pq: int, frac: int, n: int)

  predicate PartsAre(x: Parts) {
    && x.pq == x.p * x.q && x.frac == x.k * x.p + x.r && x.n == x.w * x.pq + x.frac
    && 0 <= x.r < x.p && x.q >= 1
  }

  lemma LiteralParts(l: Literal, kept: string, rest: string) returns (x: Parts)
    requires WellFormed(l) && l.frac == kept + rest && AllDigits(kept) && AllDigits(rest)
    ensures x == Parts(Value(l.whole), Value(kept), Value(rest), Pow10(|rest|), Pow10(|kept|), Pow10(|l.frac|), Value(l.frac), Numerator(l))
    ensures PartsAre(x)
  {
    x := Parts(Value(l.whole), Value(kept), Value(rest), Pow10(|rest|), Pow10(|kept|), Pow10(|l.frac|), Value(l.frac), Numerator(l));
    ValueConcat(kept, rest);
    ValueBound(rest);
    Pow10Sum(|rest|, |kept|);
  }

  lemma UpArith(x: Parts, f: int, up: int, m: int)
    requires PartsAre(x) && 0 <= up <= 1 && f == x.w * x.q + x.k && m == f + up
    ensures x.n * x.q < m * x.pq <==> up == 1
  {
    NumeratorParts(x.w, x.k, x.r, x.p, x.q, f, x.pq, x.frac, x.n);
    WentUp(f, x.r, x.p, x.q, up, x.n * x.q, m, x.pq);
  }

  lemma NumeratorParts(w: int, k: int, r: int, p: int, q: int, f: int, pq: int, frac: int, n: int)
    requires pq == p * q && frac == k * p + r && f == w * q + k && n == w * pq + frac
    ensures n == f * p + r
  {
    Regroup(w, k, r, p, q);
  }

  /** What a literal is parsed as, before it is brought to the preset scale. */
  function Magnitude(l: Literal): nat
    requires WellFormed(l) && WholeDigits(l) < 18
  {
    var k := KeptScale(l);
    if |l.frac| + WholeDigits(l) <= 18 then Value(l.whole) * Pow10(k) + (if l.dot then Value(l.frac) else 0)
    else Value(l.whole) * Pow10(k) + Value(l.frac[..k]) + (if l.frac[k] >= '5' then 1 else 0)
  }

  /** Reading a literal at any preset scale: an exception exactly if its digits do not fit at that scale, and
      otherwise the literal rounded half away from zero, if and only if it is not read astray. */
  lemma PresetScale(l: Literal, scale: nat)
    requires WellFormed(l) && WholeDigits(l) < 18
    ensures var r := ParseNumericAs(Text(l), scale);
            && (r.Thrown? <==> scale >= KeptScale(l) && !Fits(Magnitude(l) * Pow10(scale - KeptScale(l))))
            && (r.Ok? ==>
                  && (if l.neg then r.value <= 0 else r.value >= 0)
                  && (IsRounded(Numerator(l) * Pow10(scale), Pow10(|l.frac|), Abs(r.value)) <==> !ReadAstray(l, scale)))
  {
    ParseRounds(l);
    var res := ParseNumeric(Text(l));
    if scale < KeptScale(l) {
      var r := PresetDown(res, l, scale);
    } else {
      PresetUp(res, l, scale);
    }
  }

  lemma PresetDown(res: Result<Numeric>, l: Literal, scale: nat) returns (r: int)
    requires WellFormed(l) && WholeDigits(l) < 18 && scale < KeptScale(l) && Right(res, l)
    ensures RescaleTo(res, scale) == Ok(r) && (if l.neg then r <= 0 else r >= 0)
    ensures IsRounded(Numerator(l) * Pow10(scale), Pow10(|l.frac|), Abs(r)) <==> !ReadAstray(l, scale)
  {
    var n := res.value;
    Pow10Nineteen();
    r := RoundedDown(l, n.value, scale);
    RescaleSign(n.value, n.scale - scale);
  }

  lemma RoundedDown(l: Literal, n: int, scale: nat) returns (r: int)
    requires WellFormed(l) && WholeDigits(l) < 18 && scale < KeptScale(l) && INT64_MIN < n <= INT64_MAX
    requires var v, p := Numerator(l) * Pow10(KeptScale(l)), Pow10(|l.frac|);
             IsRounded(v, p, Abs(n)) && (|l.frac| + WholeDigits(l) <= 18 ==> Abs(n) * p == v)
    ensures Rescale(n, scale - KeptScale(l)) == Ok(r)
    ensures IsRounded(Numerator(l) * Pow10(scale), Pow10(|l.frac|), Abs(r)) <==> !ReadAstray(l, scale)
  {
    var v := Numerator(l) * Pow10(KeptScale(l));
    ProductNat(Numerator(l), Pow10(KeptScale(l)));
    r := DownTwice(v, Pow10(|l.frac|), n, KeptScale(l) - scale);
    PresetRounds(l, scale, Abs(n), Abs(r));
  }

  /** The literal, its parse and the parse rounded once more. */
  lemma PresetRounds(l: Literal, scale: nat, m: nat, r: nat)
    requires WellFormed(l) && WholeDigits(l) < 18 && scale < KeptScale(l)
    requires var v, p := Numerator(l) * Pow10(KeptScale(l)), Pow10(|l.frac|);
             && IsRounded(v, p, m) && (|l.frac| + WholeDigits(l) <= 18 ==> m * p == v)
             && RoundsUnlessTie(v, p, m, Pow10(KeptScale(l) - scale), r)
    ensures IsRounded(Numerator(l) * Pow10(scale), Pow10(|l.frac|), r) <==> !ReadAstray(l, scale)
  {
    SplitScale(Numerator(l), scale, KeptScale(l) - scale, Pow10(|l.frac|), r);
    if |l.frac| + WholeDigits(l) > 18 {
      AstrayIff(l, scale, m, r);
    }
  }

  // ---------------------------------------------------------------- scaled up again

  /** Digits that are zeros up to the scale, and less than a half after it. */
  lemma {:induction false} NearlyNothing(rest: string, j: nat)
    requires AllDigits(rest)
    ensures 2 * Value(rest) * Pow10(j) < Pow10(|rest|) <==> AllAre(rest, 0, j, '0') && FractionDigit(rest, j) < '5'
    decreases j
  {
    if rest == [] {
    } else if j == 0 {
      DroppedDigits(rest);
    } else {
      var tail := rest[1..];
      NearlyNothing(tail, j - 1);
      FirstDigit(rest);
      TailAre(rest, j, '0');
      NothingStep(DigitValue(rest[0]), Pow10(|tail|), Value(tail), Pow10(j - 1));
    }
  }

  /** Digits that are nines up to the scale, and at least a half after it. */
  lemma {:induction false} NearlyOne(rest: string, j: nat)
    requires AllDigits(rest)
    ensures 2 * (Pow10(|rest|) - Value(rest)) * Pow10(j) <= Pow10(|rest|) <==>
            AllAre(rest, 0, j, '9') && FractionDigit(rest, j) >= '5'
    decreases j
  {
    if rest == [] {
      AtLeastOne(2, Pow10(j));
    } else if j == 0 {
      DroppedDigits(rest);
    } else {
      var tail := rest[1..];
      NearlyOne(tail, j - 1);
      FirstDigit(rest);
      TailAre(rest, j, '9');
      OneStep(DigitValue(rest[0]), Pow10(|tail|), Value(tail), Pow10(j - 1));
    }
  }

  lemma FirstDigit(rest: string)
    requires rest != [] && AllDigits(rest)
    ensures var tail := rest[1..];
            AllDigits(tail) && Value(tail) < Pow10(|tail|) && Pow10(|rest|) == 10 * Pow10(|tail|) &&
            Value(rest) == DigitValue(rest[0]) * Pow10(|tail|) + Value(tail)
  {
    var first, tail := rest[..1], rest[1..];
    assert rest == first + tail;
    ValueConcat(first, tail);
    ValueBound(tail);
    assert first[..0] == [];
  }

  lemma TailAre(rest: string, j: nat, c: char)
    requires rest != [] && j >= 1
    ensures AllAre(rest, 0, j, c) <==> rest[0] == c && AllAre(rest[1..], 0, j - 1, c)
    ensures FractionDigit(rest[1..], j - 1) == FractionDigit(rest, j)
  {
    forall i | 0 <= i < j - 1
      ensures FractionDigit(rest[1..], i) == FractionDigit(rest, i + 1)
    {
    }
    if rest[0] == c && AllAre(rest[1..], 0, j - 1, c) {
      forall i | 0 <= i < j
        ensures FractionDigit(rest, i) == c
      {
        if i > 0 {
          assert FractionDigit(rest[1..], i - 1) == c;
        }
      }
    }
    assert FractionDigit(rest, 0) == rest[0];
  }

  lemma NothingStep(d: nat, p: nat, t: nat, q: nat)
    requires t < p && q >= 1
    ensures 2 * (d * p + t) * (10 * q) < 10 * p <==> d == 0 && 2 * t * q < p
  {
    TenTimes(d * p + t, q);
    if d == 0 {
      TenTimes(t, q);
    } else {
      Multiples(d, p);
      Multiples(q, d * p + t);
    }
  }

  lemma OneStep(d: nat, p: nat, t: nat, q: nat)
    requires d <= 9 && t < p && q >= 1
    ensures 2 * (10 * p - (d * p + t)) * (10 * q) <= 10 * p <==> d == 9 && 2 * (p - t) * q <= p
  {
    var x := 10 * p - (d * p + t);
    assert x == (10 - d) * p - t;
    TenTimes(x, q);
    if d == 9 {
      TenTimes(p - t, q);
    } else {
      Multiples(10 - d, p);
      Multiples(q, x);
    }
  }

  lemma TenTimes(x: int, q: int)
    ensures 2 * x * (10 * q) == 20 * (q * x) && 2 * x * q == 2 * (q * x)
  {
  }

  lemma PresetUp(res: Result<Numeric>, l: Literal, scale: nat)
    requires WellFormed(l) && WholeDigits(l) < 18 && scale >= KeptScale(l) && Right(res, l)
    ensures var r := RescaleTo(res, scale);
            && (r.Thrown? <==> !Fits(Magnitude(l) * Pow10(scale - KeptScale(l))))
            && (r.Ok? ==>
                  && (if l.neg then r.value <= 0 else r.value >= 0)
                  && (IsRounded(Numerator(l) * Pow10(scale), Pow10(|l.frac|), Abs(r.value)) <==> !ReadAstray(l, scale)))
  {
    var n := res.value;
    var j := scale - KeptScale(l);
    MagnitudeIs(l, Abs(n.value));
    Pow10Nineteen();
    ScaleUp(n.value, j);
    AbsTimes(n.value, Pow10(j));
    SignFits(n.value, j);
    UpRounds(l, scale, Abs(n.value));
  }

  lemma SignFits(v: int, j: nat)
    requires INT64_MIN < v <= INT64_MAX
    ensures Fits(v * Pow10(j)) <==> Fits(Abs(v) * Pow10(j))
    ensures (v >= 0 ==> v * Pow10(j) >= 0) && (v <= 0 ==> v * Pow10(j) <= 0)
  {
    AbsTimes(v, Pow10(j));
    Multiples(v, Pow10(j));
    if j >= 1 {
      MultipleOfTen(v, j);
    } else {
      assert Pow10(0) == 1;
    }
  }

  lemma MagnitudeIs(l: Literal, m: nat)
    requires WellFormed(l) && WholeDigits(l) < 18
    requires var v, p := Numerator(l) * Pow10(KeptScale(l)), Pow10(|l.frac|);
             IsRounded(v, p, m) && (|l.frac| + WholeDigits(l) <= 18 ==> m * p == v)
    ensures m == Magnitude(l)
  {
    var k := KeptScale(l);
    if |l.frac| + WholeDigits(l) > 18 {
      var kept, rest := l.frac[..k], l.frac[k..];
      assert l.frac == kept + rest && AllDigits(kept) && AllDigits(rest) && rest[0] == l.frac[k];
      var up := LongRounding(l, kept, rest, m);
    } else if l.dot {
      Cancel(m, Numerator(l), Pow10(k));
    } else {
      assert Pow10(0) == 1;
    }
  }

  lemma Cancel(a: int, b: int, p: int)
    requires p >= 1 && a * p == b * p
    ensures a == b
  {
    TimesOrder(a, b, p);
  }

  lemma UpRounds(l: Literal, scale: nat, m: nat)
    requires WellFormed(l) && WholeDigits(l) < 18 && scale >= KeptScale(l)
    requires var v, p := Numerator(l) * Pow10(KeptScale(l)), Pow10(|l.frac|);
             IsRounded(v, p, m) && (|l.frac| + WholeDigits(l) <= 18 ==> m * p == v)
    ensures IsRounded(Numerator(l) * Pow10(scale), Pow10(|l.frac|), m * Pow10(scale - KeptScale(l))) <==> !ReadAstray(l, scale)
  {
    var k := KeptScale(l);
    Pow10Sum(k, scale - k);
    if |l.frac| + WholeDigits(l) <= 18 {
      ExactUp(Numerator(l), Pow10(k), Pow10(scale - k), Pow10(|l.frac|), m);
    } else {
      var kept, rest := l.frac[..k], l.frac[k..];
      assert l.frac == kept + rest && AllDigits(kept) && AllDigits(rest);
      LongUp(l, kept, rest, m, scale - k);
      LostIs(l.frac, k, scale);
    }
  }

  lemma ExactUp(n: nat, q: nat, t: nat, p: nat, m: nat)
    requires m * p == n * q && p >= 1
    ensures IsRounded(n * (q * t), p, m * t)
  {
    assert n * (q * t) == n * q * t;
    assert m * t * p == m * p * t;
  }

  /** The dropped digits, for a result that is scaled up by `j` places. */
  lemma LongUp(l: Literal, kept: string, rest: string, m: nat, j: nat)
    requires WellFormed(l) && l.frac == kept + rest && rest != [] && AllDigits(kept) && AllDigits(rest)
    requires IsRounded(Numerator(l) * Pow10(|kept|), Pow10(|l.frac|), m)
    ensures IsRounded(Numerator(l) * (Pow10(|kept|) * Pow10(j)), Pow10(|l.frac|), m * Pow10(j)) <==> LostHarmlessly(rest, 0, j)
  {
    var up := LongRounding(l, kept, rest, m);
    LongUpBy(l, kept, rest, m, j, up);
  }

  lemma LongUpBy(l: Literal, kept: string, rest: string, m: nat, j: nat, up: int)
    requires WellFormed(l) && l.frac == kept + rest && rest != [] && AllDigits(kept) && AllDigits(rest)
    requires 0 <= up <= 1 && (up == 1 <==> rest[0] >= '5') && m == Value(l.whole) * Pow10(|kept|) + Value(kept) + up
    ensures IsRounded(Numerator(l) * (Pow10(|kept|) * Pow10(j)), Pow10(|l.frac|), m * Pow10(j)) <==> LostHarmlessly(rest, 0, j)
  {
    var x := LiteralParts(l, kept, rest);
    PartsUp(x, m, up, Pow10(j));
    HarmlessIff(rest, j, up);
  }

  lemma HarmlessIff(rest: string, j: nat, up: int)
    requires rest != [] && AllDigits(rest) && 0 <= up <= 1 && (up == 1 <==> rest[0] >= '5')
    ensures (if up == 0 then 2 * Value(rest) * Pow10(j) < Pow10(|rest|)
             else 2 * (Pow10(|rest|) - Value(rest)) * Pow10(j) <= Pow10(|rest|)) <==> LostHarmlessly(rest, 0, j)
  {
    NearlyNothing(rest, j);
    NearlyOne(rest, j);
    FirstDecides(rest, j);
  }

  lemma PartsUp(x: Parts, m: int, up: int, t: int)
    requires PartsAre(x) && x.w >= 0 && x.k >= 0 && 0 <= up <= 1 && m == x.w * x.q + x.k + up && t >= 1
    ensures IsRounded(x.n * (x.q * t), x.pq, m * t) <==> if up == 0 then 2 * x.r * t < x.p else 2 * (x.p - x.r) * t <= x.p
  {
    ProductNat(x.w, x.q);
    NumeratorParts(x.w, x.k, x.r, x.p, x.q, m - up, x.pq, x.frac, x.n);
    ShiftRounds(m - up, x.r, x.p, x.q, up, t, x.n, x.pq, m);
  }

  /** The first digit tells zeros from nines. */
  lemma FirstDecides(rest: string, j: nat)
    requires rest != []
    ensures AllAre(rest, 0, j, '0') && FractionDigit(rest, j) < '5' ==> rest[0] < '5'
    ensures AllAre(rest, 0, j, '9') && FractionDigit(rest, j) >= '5' ==> rest[0] >= '5'
  {
    assert FractionDigit(rest, 0) == rest[0];
  }

  lemma ShiftRounds(f: int, r: int, p: int, q: int, up: int, t: int, n: int, pq: int, m: int)
    requires f >= 0 && 0 <= r < p && q >= 1 && 0 <= up <= 1 && t >= 1 && n == f * p + r && pq == p * q && m == f + up
    ensures IsRounded(n * (q * t), pq, m * t) <==> if up == 0 then 2 * r * t < p else 2 * (p - r) * t <= p
  {
    Reorder(n, q, t);
    ScaleRounded(n * t, p, q, m * t);
    Distribute(f, p, r, up, t);
    ProductNat(f, p);
    ProductNat(f * p, t);
    ProductNat(r, t);
    Multiples(p - r, t);
    ShiftArith(f * p * t, r * t, p * t, p, up, n * t, m * t * p);
  }

  lemma Reorder(n: int, q: int, t: int)
    ensures n * (q * t) == n * t * q
  {
  }

  lemma Distribute(f: int, p: int, r: int, up: int, t: int)
    ensures (f * p + r) * t == f * p * t + r * t
    ensures (f + up) * t * p == f * p * t + up * (p * t)
    ensures (p - r) * t == p * t - r * t
    ensures 2 * (p - r) * t == 2 * ((p - r) * t) && 2 * r * t == 2 * (r * t)
  {
    assert (f + up) * t * p == f * t * p + up * t * p;
    assert f * t * p == f * p * t && up * t * p == up * (p * t);
  }

  lemma ShiftArith(fpt: int, rt: int, pt: int, p: int, up: int, v: int, w: int)
    requires fpt >= 0 && 0 <= rt < pt && 0 <= up <= 1 && p >= 1 && v == fpt + rt && w == fpt + up * pt
    ensures (2 * Abs(v - w) <= p && (2 * Abs(v - w) == p ==> Abs(w) > Abs(v))) <==>
            if up == 0 then 2 * rt < p else 2 * (pt - rt) <= p
  {
  }

  lemma LostIs(frac: string, k: nat, scale: nat)
    requires k <= |frac| && k <= scale
    ensures LostHarmlessly(frac[k..], 0, scale - k) <==> LostHarmlessly(frac, k, scale)
  {
    RestAre(frac, k, scale, '0');
    RestAre(frac, k, scale, '9');
  }

  lemma RestAre(frac: string, k: nat, to: nat, c: char)
    requires k <= |frac| && k <= to
    ensures AllAre(frac[k..], 0, to - k, c) <==> AllAre(frac, k, to, c)
    ensures FractionDigit(frac[k..], to - k) == FractionDigit(frac, to)
  {
    var rest := frac[k..];
    forall i | 0 <= i < to - k
      ensures FractionDigit(rest, i) == FractionDigit(frac, i + k)
    {
    }
    if AllAre(rest, 0, to - k, c) {
      forall i | k <= i < to
        ensures FractionDigit(frac, i) == c
      {
        assert FractionDigit(rest, i - k) == FractionDigit(frac, i);
      }
    }
  }

  /** So a fraction of 18 digits after a zero, which counts as a digit, loses its last one even if the preset
      scale is 18. */
  lemma EighteenthDigitLost(l: Literal)
    requires WellFormed(l) && (l.whole == "0" || l.whole == []) && |l.frac| == 18
    ensures var r := ParseNumericAs(Text(l), 18);
            r.Ok? && (IsRounded(Numerator(l) * Pow10(18), Pow10(18), Abs(r.value)) <==> l.frac[17] == '0')
  {
    SmallMagnitude(l);
    EighteenthAstray(l);
    PresetScale(l, 18);
  }

  lemma EighteenthAstray(l: Literal)
    requires WholeDigits(l) == 1 && l.dot && |l.frac| == 18
    ensures ReadAstray(l, 18) <==> l.frac[17] != '0'
  {
    assert AllAre(l.frac, 17, 18, l.frac[17]);
    assert FractionDigit(l.frac, 17) == l.frac[17];
  }

  lemma SmallMagnitude(l: Literal)
    requires WellFormed(l) && (l.whole == "0" || l.whole == []) && |l.frac| == 18
    ensures WholeDigits(l) == 1 && KeptScale(l) == 17 && Fits(Magnitude(l) * Pow10(1))
  {
    assert "0"[..0] == [];
    ValueBound(l.frac[..17]);
    Pow10Nineteen();
    assert Pow10(18) == 10 * Pow10(17) && Pow10(1) == 10;
  }

  // ---------------------------------------------------------------- 18 and more whole digits, at a preset scale

  /** The scale at which a literal with 18 or more digits before the point is parsed. */
  function LongScale(l: Literal): nat {
    if l.dot && l.frac == [] then 0 else 1
  }

  /** With 18 or more digits before the point the value at any preset scale is the whole part, or an exception
      exactly if that does not fit at the larger of the two scales; it is the literal rounded half away from
      zero, if and only if the fraction is nothing at that scale. */
  lemma PresetLong(l: Literal, scale: nat)
    requires WellFormed(l) && |l.whole| >= 18
    ensures var r, w := ParseNumericAs(Text(l), scale), Value(l.whole);
            && (r.Thrown? <==> !Fits(w * Pow10(if scale > LongScale(l) then scale else LongScale(l))))
            && (r.Ok? ==> r.value == if l.neg then 0 - w * Pow10(scale) else w * Pow10(scale))
            && (IsRounded(Numerator(l) * Pow10(scale), Pow10(|l.frac|), w * Pow10(scale)) <==>
                AllAre(l.frac, 0, scale, '0') && FractionDigit(l.frac, scale) < '5')
  {
    LongWhole(l);
    LongPreset(ParseNumeric(Text(l)), Value(l.whole), LongScale(l), |l.whole|, l.neg, scale);
    LongRounds(l, scale);
  }

  lemma LongRounds(l: Literal, scale: nat)
    requires WellFormed(l)
    ensures IsRounded(Numerator(l) * Pow10(scale), Pow10(|l.frac|), Value(l.whole) * Pow10(scale)) <==>
            AllAre(l.frac, 0, scale, '0') && FractionDigit(l.frac, scale) < '5'
  {
    var w, f, p, t := Value(l.whole), Value(l.frac), Pow10(|l.frac|), Pow10(scale);
    ValueBound(l.frac);
    ShiftRounds(w, f, p, 1, 0, t, Numerator(l), p, w);
    NearlyNothing(l.frac, scale);
  }

  lemma LongPreset(res: Result<Numeric>, w: nat, s: nat, wholeDigits: nat, neg: bool, scale: nat)
    requires s <= 1 && Dropped(res, w, s, wholeDigits, neg)
    ensures var r := RescaleTo(res, scale);
            && (r.Thrown? <==> !Fits(w * Pow10(if scale > s then scale else s)))
            && (r.Ok? ==> r.value == if neg then 0 - w * Pow10(scale) else w * Pow10(scale))
  {
    assert Pow10(0) == 1 && Pow10(1) == 10;
    if res.Thrown? {
      if scale > s {
        Pow10Monotone(s, scale);
        TimesOrder2(Pow10(s), Pow10(scale), w);
      }
    } else if scale >= s {
      LongUpFrom(w, s, res.value.value, neg, scale);
    } else {
      LongDown(w, neg);
    }
  }

  lemma LongUpFrom(w: nat, s: nat, n: int, neg: bool, scale: nat)
    requires scale >= s && Fits(w * Pow10(s)) && n == if neg then 0 - w * Pow10(s) else w * Pow10(s)
    ensures Rescale(n, scale - s) ==
            if Fits(w * Pow10(scale)) then Ok(if neg then 0 - w * Pow10(scale) else w * Pow10(scale)) else Thrown
  {
    Pow10Sum(s, scale - s);
    LongProduct(w, Pow10(s), Pow10(scale - s), n, neg);
    SignFits(n, scale - s);
    ScaleUp(n, scale - s);
  }

  lemma LongDown(w: nat, neg: bool)
    requires Fits(w * 10)
    ensures Rescale(if neg then 0 - w * 10 else w * 10, -1) == Ok(if neg then 0 - w else w)
  {
    var v := if neg then 0 - w else w;
    assert Pow10(1) == 10;
    ScaleUp(v, 1);
    UpDown(v, 1);
  }

  lemma TimesOrder2(a: nat, b: nat, w: nat)
    requires a <= b
    ensures w * a <= w * b
  {
  }

  lemma LongProduct(w: nat, p: nat, q: nat, n: int, neg: bool)
    requires n == if neg then 0 - w * p else w * p
    ensures n * q == if neg then 0 - w * (p * q) else w * (p * q)
    ensures Abs(n) * q == w * (p * q)
  {
    assert w * p * q == w * (p * q);
    assert (0 - w * p) * q == 0 - w * p * q;
    ProductNat(w, p);
  }

  lemma SplitScale(n: nat, scale: nat, k: nat, p: nat, r: nat)
    requires p >= 1
    ensures IsRounded(n * Pow10(scale + k), p * Pow10(k), r) <==> IsRounded(n * Pow10(scale), p, r)
  {
    Pow10Sum(scale, k);
    assert n * Pow10(scale + k) == n * Pow10(scale) * Pow10(k);
    ScaleRounded(n * Pow10(scale), p, Pow10(k), r);
  }

  lemma RescaleSign(n: int, k: int)
    requires INT64_MIN < n <= INT64_MAX && k >= 1
    ensures Rescale(n, -k).Ok? && (n >= 0 ==> Rescale(n, -k).value >= 0) && (n <= 0 ==> Rescale(n, -k).value <= 0)
  {
    ScaleDown(n, k);
    RoundedSign(n, Pow10(k), Rescale(n, -k).value);
  }

  lemma RoundedSign(v: int, p: int, r: int)
    requires p >= 1 && IsRounded(v, p, r)
    ensures (v >= 0 ==> r >= 0) && (v <= 0 ==> r <= 0)
  {
    Multiples(r, p);
  }

  lemma ProductNat(a: nat, b: nat)
    ensures a * b >= 0
  {
  }

  lemma DownTwice(v: nat, d: nat, n: int, k: int) returns (r: int)
    requires d >= 1 && k >= 1 && INT64_MIN < n <= INT64_MAX && IsRounded(v, d, Abs(n))
    ensures Rescale(n, -k) == Ok(r) && RoundsUnlessTie(v, d, Abs(n), Pow10(k), Abs(r))
  {
    ScaleDown(n, k);
    r := Rescale(n, -k).value;
    RoundedAbs(n, Pow10(k), r);
    Pow10Even(k);
    RoundTwice(v, d, Abs(n), Pow10(k), Abs(r));
  }

  lemma RoundedAbs(v: int, p: int, r: int)
    requires p > 0 && IsRounded(v, p, r)
    ensures IsRounded(Abs(v), p, Abs(r))
  {
    Multiples(r, p);
    assert (-r) * p == -(r * p);
  }

  /** Rounding up to a tie does happen: 0.499999999999999995 is less than a half, but read at scale
      0 it becomes 1. */
  lemma RoundedUpToTie() returns (l: Literal)
    ensures WellFormed(l) && 2 * Numerator(l) < Pow10(|l.frac|)
    ensures ParseNumericAs(Text(l), 0) == Ok(1)
  {
    var kept, rest := TieDigits();
    l := Literal(false, "0", true, kept + rest);
    TieParse(l, kept, rest);
    SeventeenDown();
  }

  lemma TieParse(l: Literal, kept: string, rest: string)
    requires AllDigits(kept) && AllDigits(rest) && |kept| == 17 && |rest| == 1
    requires Value(kept) == 49_999_999_999_999_999 && Value(rest) == 5
    requires l == Literal(false, "0", true, kept + rest)
    ensures WellFormed(l) && 2 * Numerator(l) < Pow10(|l.frac|)
    ensures ParseNumeric(Text(l)) == Ok(Numeric(50_000_000_000_000_000, 17, 18))
  {
    TieNumerator(l, kept, rest);
    ParseText(l);
    TieAfter(kept, rest);
  }

  lemma TieNumerator(l: Literal, kept: string, rest: string)
    requires AllDigits(kept) && AllDigits(rest) && |kept| == 17 && |rest| == 1
    requires Value(kept) == 49_999_999_999_999_999 && Value(rest) == 5
    requires l == Literal(false, "0", true, kept + rest)
    ensures WellFormed(l) && Value("0") == 0 && 2 * Numerator(l) < Pow10(|l.frac|)
  {
    ValueConcat(kept, rest);
    Pow10Nineteen();
    assert "0"[..0] == [];
    assert Pow10(1) == 10;
  }

  lemma TieAfter(kept: string, rest: string)
    requires AllDigits(kept) && AllDigits(rest) && |kept| == 17 && |rest| == 1
    requires Value(kept) == 49_999_999_999_999_999 && Value(rest) == 5
    ensures ParseAfter(false, 0, 1, kept + rest) == Ok(Numeric(50_000_000_000_000_000, 17, 18))
  {
    assert Pow10(1) == 10;
    var m := KeptParse(0, kept, rest, false, 0);
  }

  lemma TieDigits() returns (kept: string, rest: string)
    ensures AllDigits(kept) && AllDigits(rest) && |kept| == 17 && |rest| == 1
    ensures Value(kept) == 49_999_999_999_999_999 && Value(rest) == 5
  {
    Pow10Nineteen();
    assert Pow10(18) == 10 * Pow10(17);
    kept, rest := Print(49_999_999_999_999_999, 17), Print(5, 1);
    PrintDigits(49_999_999_999_999_999, 17);
    PrintWidth(49_999_999_999_999_999, 17);
    PrintDigits(5, 1);
  }

  lemma SeventeenDown()
    ensures Rescale(50_000_000_000_000_000, -17) == Ok(1)
  {
    Pow10Nineteen();
    assert Pow10(18) == 10 * Pow10(17);
  }
}
