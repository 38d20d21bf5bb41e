/**
The fields of a parsed date and time, and the epoch time they stand for.
*/
module DateTimeFields {
  import opened Wrappers
  import opened Numerals
  import opened Calendar

  /** `DateTimeParser::DateTime`: `p` is true for pm, false for am. */
  datatype DateTime = DateTime(Y: int, m: int, d: int, H: int, M: int, S: int, n: int, z: int, p: Option<bool>)

  const FRESH := DateTime(1970, 1, 1, 0, 0, 0, 0, 0, None)

  const SECS_PER_DAY: int := 86400

  predicate InRange(x: DateTime) {
    && 1 <= x.m <= 12 && 1 <= x.d && 0 <= x.n
  }

  function Seconds(x: DateTime): int {
    3600 * x.H + 60 * x.M + x.S - x.z
    + (match x.p
       case None => 0
       case Some(pm) => if pm && x.H != 12 then 12 * 3600 else if !pm && x.H == 12 then -12 * 3600 else 0)
  }

  /** `getTime`: units of 10^-dim seconds since the epoch. */
  function GetTime(x: DateTime, dim: nat): int
    requires InRange(x) && dim <= 9
  {
    (24 * 3600 * DaysFromCivil(x.Y, x.m, x.d) + Seconds(x)) * Pow10(dim) + x.n / Pow10(9 - dim)
  }

  // ---------------------------------------------------------------- precision

  lemma FloorSplit(a: int, b: nat, p: nat, q: nat)
    requires p >= 1 && q >= 1
    ensures (a * (p * q) + b) / q == a * p + b / q
  {
    var r := b % q;
    assert a * (p * q) + b == (a * p + b / q) * q + r by {
      assert (a * p + b / q) * q == a * p * q + (b / q) * q;
      assert a * (p * q) == a * p * q;
      assert b == (b / q) * q + r;
    }
    FloorUnique(a * (p * q) + b, q, a * p + b / q, r);
  }

  lemma FloorUnique(x: int, q: nat, k: int, r: int)
    requires q >= 1 && x == k * q + r && 0 <= r < q
    ensures x / q == k
  {
    QuotientUnique(q, k, r, x / q, x % q);
  }

  lemma QuotientUnique(q: nat, k: int, r: int, k': int, r': int)
    requires k * q + r == k' * q + r' && 0 <= r < q && 0 <= r' < q
    ensures k == k'
  {
    MultipleBounds(k - k', q);
  }

  lemma MultipleBounds(d: int, q: int)
    requires q >= 0
    ensures d >= 1 ==> d * q >= q
    ensures d <= -1 ==> d * q <= -q
  {
  }

  /** Every coarser precision is the floor of the nanosecond one, before the epoch too. */
  lemma CoarserIsFloor(x: DateTime, dim: nat)
    requires InRange(x) && dim <= 9
    ensures GetTime(x, dim) == GetTime(x, 9) / Pow10(9 - dim)
  {
    var secs := 24 * 3600 * DaysFromCivil(x.Y, x.m, x.d) + Seconds(x);
    Pow10Sum(dim, 9 - dim);
    assert GetTime(x, 9) == secs * (Pow10(dim) * Pow10(9 - dim)) + x.n;
    FloorSplit(secs, x.n, Pow10(dim), Pow10(9 - dim));
  }

  // ---------------------------------------------------------------- order

  /** A real instant: a calendar date, a time of day without leap second, am/pm or zone. */
  predicate Instant(x: DateTime) {
    && Valid(Date(x.Y, x.m, x.d))
    && 0 <= x.H <= 23 && 0 <= x.M <= 59 && 0 <= x.S <= 59 && 0 <= x.n < Pow10(9)
    && x.z == 0 && x.p == None
  }

  predicate Earlier(a: DateTime, b: DateTime) {
    var x, y := Date(a.Y, a.m, a.d), Date(b.Y, b.m, b.d);
    || Before(x, y)
    || (x == y && (
          || a.H < b.H
          || (a.H == b.H && (
                || a.M < b.M
                || (a.M == b.M && (a.S < b.S || (a.S == b.S && a.n < b.n)))))))
  }

  /** Epoch time in nanoseconds is strictly monotone in (Y, m, d, H, M, S, n). */
  lemma TimeMonotone(a: DateTime, b: DateTime)
    requires Instant(a) && Instant(b) && Earlier(a, b)
    ensures GetTime(a, 9) < GetTime(b, 9)
  {
    var da, db := DaysFromCivil(a.Y, a.m, a.d), DaysFromCivil(b.Y, b.m, b.d);
    if Before(Date(a.Y, a.m, a.d), Date(b.Y, b.m, b.d)) {
      StrictlyMonotone(Date(a.Y, a.m, a.d), Date(b.Y, b.m, b.d));
    }
    SecondsRange(a);
    SecondsRange(b);
    if da == db {
      SameDay(Date(a.Y, a.m, a.d), Date(b.Y, b.m, b.d));
      ClockOrder(a, b);
    }
    SecondsOrder(da, db, Seconds(a), Seconds(b), a.n, b.n);
  }

  /** Only one date has a given day number. */
  lemma SameDay(x: Date, y: Date)
    requires Valid(x) && Valid(y) && DaysFromCivil(x.y, x.m, x.d) == DaysFromCivil(y.y, y.m, y.d)
    ensures x == y
  {
    if Before(x, y) {
      StrictlyMonotone(x, y);
    } else if Before(y, x) {
      StrictlyMonotone(y, x);
    }
  }

  lemma SecondsOrder(da: int, db: int, sa: int, sb: int, na: int, nb: int)
    requires 0 <= sa < 24 * 3600 && 0 <= sb < 24 * 3600 && 0 <= na < 1_000_000_000 && 0 <= nb
    requires da < db || (da == db && (sa < sb || (sa == sb && na < nb)))
    ensures (24 * 3600 * da + sa) * Pow10(9) + na < (24 * 3600 * db + sb) * Pow10(9) + nb
  {
    if da < db || sa < sb {
      Carry(24 * 3600 * da + sa, 24 * 3600 * db + sb, na, nb);
    }
  }

  lemma SecondsRange(x: DateTime)
    requires Instant(x)
    ensures 0 <= Seconds(x) < 24 * 3600 && x.n < 1_000_000_000
  {
    assert Pow10(9) == 1_000_000_000;
  }

  lemma ClockOrder(a: DateTime, b: DateTime)
    requires Instant(a) && Instant(b) && Earlier(a, b) && Date(a.Y, a.m, a.d) == Date(b.Y, b.m, b.d)
    ensures Seconds(a) < Seconds(b) || (Seconds(a) == Seconds(b) && a.n < b.n)
  {
  }

  lemma Carry(s: int, t: int, m: int, n: int)
    requires s < t && 0 <= m < 1_000_000_000 && 0 <= n
    ensures s * Pow10(9) + m < t * Pow10(9) + n
  {
    assert Pow10(9) == 1_000_000_000;
  }

  // ---------------------------------------------------------------- days

  /** `get_epoch_days_from_seconds`, with truncating `/` and `%`. */
  function EpochDaysFromSeconds(seconds: int): int {
    var quot := TruncDiv(seconds, SECS_PER_DAY);
    var rem := seconds - quot * SECS_PER_DAY;
    if seconds < 0 && rem != 0 then quot - 1 else quot
  }

  function EpochSecondsFromDays(days: int): int {
    days * SECS_PER_DAY
  }

  /** The conversion to days floors, and inverts the conversion to seconds. */
  lemma EpochDaysFloor(seconds: int, days: int)
    ensures EpochDaysFromSeconds(seconds) == seconds / SECS_PER_DAY
    ensures EpochDaysFromSeconds(EpochSecondsFromDays(days)) == days
  {
  }

  /** The date part alone: whole days, which truncating division and floor agree on. */
  lemma DateSeconds(x: DateTime)
    requires InRange(x) && x.H == 0 && x.M == 0 && x.S == 0 && x.n == 0 && x.z == 0 && x.p == None
    ensures forall dim: nat | dim <= 9 :: GetTime(x, dim) == SECS_PER_DAY * DaysFromCivil(x.Y, x.m, x.d) * Pow10(dim)
    ensures TruncDiv(GetTime(x, 0), SECS_PER_DAY) == DaysFromCivil(x.Y, x.m, x.d)
    ensures EpochDaysFromSeconds(GetTime(x, 0)) == DaysFromCivil(x.Y, x.m, x.d)
  {
    WholeDays(DaysFromCivil(x.Y, x.m, x.d));
  }

  lemma WholeDays(days: int)
    ensures TruncDiv(SECS_PER_DAY * days, SECS_PER_DAY) == days
    ensures EpochDaysFromSeconds(SECS_PER_DAY * days) == days
  {
  }

  // ---------------------------------------------------------------- 64-bit arithmetic

  predicate Int64(v: int) {
    INT64_MIN <= v <= INT64_MAX
  }

  /** Everything `daysFromCivil` computes is a signed 64-bit integer. */
  predicate CivilFits(y0: int, m: int, d: int)
    requires 1 <= m <= 12 && d >= 1
  {
    var y := if m <= 2 then y0 - 1 else y0;
    var p := CivilParts(y0, m, d);
    && Int64(y) && (y < 0 ==> Int64(y - 399)) && Int64(p.era * 400) && Int64(y - p.era * 400)
    && Int64(p.era * 146097) && Int64(p.era * 146097 + p.doe) && Int64(DaysFromCivil(y0, m, d))
  }

  /** Everything `getTime` computes is. */
  predicate TimeFits(x: DateTime, dim: nat)
    requires InRange(x) && dim <= 9
  {
    CivilFits(x.Y, x.m, x.d) && SumFits(24 * 3600 * DaysFromCivil(x.Y, x.m, x.d), Seconds(x), Pow10(dim), x.n / Pow10(9 - dim))
  }

  predicate SumFits(day: int, seconds: int, p: int, n: int) {
    Int64(day) && Int64(day + seconds) && Int64((day + seconds) * p) && Int64((day + seconds) * p + n)
  }

  /** Dates whose seconds fit are far from the limits of `daysFromCivil`. */
  lemma DaysFit(y: int, m: int, d: int)
    requires 1 <= m <= 12 && 1 <= d <= 31 && Int64(24 * 3600 * DaysFromCivil(y, m, d))
    ensures CivilFits(y, m, d)
  {
    var x := Date(y, m, d);
    ClosedForm(x);
    YearFits(MarchYear(x), DaysFromCivil(y, m, d), DayOfYear(x));
  }

  lemma YearFits(n: int, days: int, doy: int)
    requires Int64(24 * 3600 * days) && days == YearStart(n) + doy - 719468 && 0 <= doy <= 400
    ensures -400_000_000_000 <= n <= 400_000_000_000
  {
  }

  /** The least value the sum goes through. */
  function Lowest(x: DateTime, dim: nat): int
    requires InRange(x) && dim <= 9
  {
    var day := 24 * 3600 * DaysFromCivil(x.Y, x.m, x.d);
    if dim == 0 then day else (day + Seconds(x)) * Pow10(dim)
  }

  /** At every precision nothing overflows exactly when the two ends fit: for seconds the start of the
      day, otherwise the whole seconds, and the result. */
  lemma FitsInt64(x: DateTime, dim: nat)
    requires InRange(x) && x.d <= 31 && 0 <= Seconds(x) < SECS_PER_DAY && x.n < Pow10(9) && dim <= 9
    ensures TimeFits(x, dim) <==> INT64_MIN <= Lowest(x, dim) && GetTime(x, dim) <= INT64_MAX
  {
    var day := 24 * 3600 * DaysFromCivil(x.Y, x.m, x.d);
    PowerOrOne(dim);
    EndsFit(day, Seconds(x), Pow10(dim), x.n / Pow10(9 - dim));
    if Int64(day) {
      DaysFit(x.Y, x.m, x.d);
    }
  }

  lemma PowerOrOne(dim: nat)
    ensures if dim == 0 then Pow10(dim) == 1 else Pow10(dim) >= 10
  {
  }

  lemma EndsFit(day: int, seconds: int, p: int, n: int)
    requires 0 <= seconds < SECS_PER_DAY && (p == 1 || p >= 10) && n >= 0
    ensures SumFits(day, seconds, p, n) <==>
            INT64_MIN <= (if p == 1 then day else (day + seconds) * p) && (day + seconds) * p + n <= INT64_MAX
  {
    if p >= 10 {
      TenFold(day + seconds, p);
    }
  }

  lemma TenFold(s: int, p: int)
    requires p >= 10
    ensures s < 0 ==> s * p <= s * 10
    ensures s >= 0 ==> s * p >= s * 10
  {
  }

  /** A date alone: exactly when the start of its day fits. */
  lemma DateFits(x: DateTime, dim: nat)
    requires InRange(x) && x.d <= 31 && x.H == 0 && x.M == 0 && x.S == 0 && x.n == 0 && x.z == 0 && x.p == None && dim <= 9
    ensures TimeFits(x, dim) <==> Int64(SECS_PER_DAY * DaysFromCivil(x.Y, x.m, x.d) * Pow10(dim))
  {
    FitsInt64(x, dim);
    PowerOrOne(dim);
  }

  /** A time of day alone always fits. */
  lemma ClockFits(x: DateTime, dim: nat)
    requires Instant(x) && Date(x.Y, x.m, x.d) == Date(1970, 1, 1) && dim <= 9
    ensures TimeFits(x, dim)
  {
    SecondsRange(x);
    Epoch();
    FitsInt64(x, dim);
    CoarserIsFloor(x, dim);
    ClockBound(Seconds(x), x.n, Pow10(dim), Pow10(9 - dim));
    Pow10Sum(dim, 9 - dim);
  }

  lemma ClockBound(s: int, n: int, p: int, q: int)
    requires 0 <= s < SECS_PER_DAY && 0 <= n < 1_000_000_000 && p >= 1 && q >= 1 && p * q == 1_000_000_000
    ensures 0 <= s * p && s * p + n / q <= INT64_MAX
  {
    assert p <= p * q;
    assert s * p <= 86400 * p;
  }

  const FIRST_NANOSECOND := DateTime(1677, 9, 21, 0, 12, 44, 0, 0, None)
  const LAST_NANOSECOND := DateTime(2262, 4, 11, 23, 47, 16, 854_775_807, 0, None)

  /** Nanosecond times fit from 1677-09-21 00:12:44 to 2262-04-11 23:47:16.854775807, and only there. */
  lemma NanosecondRange(x: DateTime)
    requires Instant(x)
    ensures TimeFits(x, 9) <==> !Earlier(x, FIRST_NANOSECOND) && !Earlier(LAST_NANOSECOND, x)
  {
    NanosecondEnds();
    Compare(x, FIRST_NANOSECOND);
    Compare(x, LAST_NANOSECOND);
    NanosecondFits(x);
  }

  lemma NanosecondFits(x: DateTime)
    requires Instant(x)
    ensures TimeFits(x, 9) <==> -9_223_372_036_000_000_000 <= GetTime(x, 9) <= INT64_MAX
  {
    SecondsRange(x);
    FitsInt64(x, 9);
    var s := WholeSeconds(x);
    WholeFits(s, x.n);
  }

  lemma WholeFits(s: int, n: int)
    requires 0 <= n < 1_000_000_000
    ensures INT64_MIN <= s * 1_000_000_000 <==> -9_223_372_036_000_000_000 <= s * 1_000_000_000 + n
  {
  }

  lemma WholeSeconds(x: DateTime) returns (s: int)
    requires Instant(x)
    ensures Lowest(x, 9) == s * 1_000_000_000 && GetTime(x, 9) == s * 1_000_000_000 + x.n
  {
    s := 24 * 3600 * DaysFromCivil(x.Y, x.m, x.d) + Seconds(x);
    assert Pow10(9) == 1_000_000_000 && Pow10(0) == 1;
  }

  lemma NanosecondEnds()
    ensures Instant(FIRST_NANOSECOND) && GetTime(FIRST_NANOSECOND, 9) == -9_223_372_036_000_000_000
    ensures Instant(LAST_NANOSECOND) && GetTime(LAST_NANOSECOND, 9) == INT64_MAX
  {
    assert Pow10(9) == 1_000_000_000 && Pow10(0) == 1;
  }

  /** The order of instants is the order of their times. */
  lemma Compare(a: DateTime, b: DateTime)
    requires Instant(a) && Instant(b)
    ensures Earlier(a, b) <==> GetTime(a, 9) < GetTime(b, 9)
    ensures Earlier(b, a) <==> GetTime(b, 9) < GetTime(a, 9)
  {
    if Earlier(a, b) {
      TimeMonotone(a, b);
    } else if Earlier(b, a) {
      TimeMonotone(b, a);
    } else {
      assert a == b;
    }
  }
}
