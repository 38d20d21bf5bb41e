/**
Days of the proleptic Gregorian calendar (section 3.2.1 of ISO 8601:2004) as the source computes
them: `DaysFromCivil` from year, month and day, and `CivilFromDays` back, with the calendar
itself -- leap years, month lengths, the next day -- as the independent reference.
*/
module Calendar {

  datatype Date = Date(y: int, m: int, d: int)

  /** C++ division truncates toward zero. */
  function TruncDiv(a: int, b: int): int
    requires b > 0
  {
    if a < 0 then -((-a) / b) else a / b
  }

  // ---------------------------------------------------------------- the calendar

  predicate IsLeap(y: int) {
    y % 4 == 0 && (y % 100 != 0 || y % 400 == 0)
  }

  function DaysInMonth(y: int, m: int): nat {
    if m == 2 then (if IsLeap(y) then 29 else 28)
    else if m == 4 || m == 6 || m == 9 || m == 11 then 30
    else 31
  }

  predicate Valid(x: Date) {
    1 <= x.m <= 12 && 1 <= x.d <= DaysInMonth(x.y, x.m)
  }

  /** The next calendar day. */
  function NextDay(x: Date): (r: Date)
    requires Valid(x)
    ensures Valid(r)
  {
    if x.d < DaysInMonth(x.y, x.m) then x.(d := x.d + 1)
    else if x.m < 12 then Date(x.y, x.m + 1, 1)
    else Date(x.y + 1, 1, 1)
  }

  predicate Before(a: Date, b: Date) {
    a.y < b.y || (a.y == b.y && (a.m < b.m || (a.m == b.m && a.d < b.d)))
  }

  // ---------------------------------------------------------------- the source's arithmetic

  /** The intermediate values of `daysFromCivil`. */
  datatype Parts = Parts(era: int, yoe: int, doy: int, doe: int)

  function CivilParts(y0: int, m: int, d: int): Parts
    requires 1 <= m <= 12 && d >= 1
  {
    var y := if m <= 2 then y0 - 1 else y0;
    var era := TruncDiv(if y < 0 then y - 399 else y, 400);
    var yoe := y - era * 400;
    var doy := (153 * (if m <= 2 then m + 9 else m - 3) + 2) / 5 + d - 1;
    var doe := yoe * 365 + yoe / 4 - yoe / 100 + doy;
    Parts(era, yoe, doy, doe)
  }

  /** `daysFromCivil`. */
  function DaysFromCivil(y: int, m: int, d: int): int
    requires 1 <= m <= 12 && d >= 1
  {
    var p := CivilParts(y, m, d);
    p.era * 146097 + p.doe - 719468
  }

  /** `divUMod`: floored quotient, non-negative remainder. */
  function DivUMod(num: int, den: int): (r: (int, int))
    requires den > 0
    ensures r.0 * den + r.1 == num && 0 <= r.1 < den
  {
    var quot := TruncDiv(num, den);
    var rem := num - quot * den;
    TruncDivBounds(num, den);
    if rem < 0 then (quot - 1, rem + den) else (quot, rem)
  }

  lemma TruncDivBounds(num: int, den: int)
    requires den > 0
    ensures -den < num - TruncDiv(num, den) * den < den
  {
    var n := if num < 0 then -num else num;
    var q := n / den;
    assert n == q * den + n % den;
    assert (-q) * den == -(q * den);
  }

  /** Year of the era, from the day of the era (`formatDate`). */
  function YearOfEra(doe: int): int {
    (doe - doe / 1460 + doe / 36524 - (if doe == 146096 then 1 else 0)) / 365
  }

  /** The date `formatDate` prints for day `z`. */
  function CivilFromDays(z: int): Date {
    var (quot, doe) := DivUMod(z - 11017, 146097);
    var yoe := YearOfEra(doe);
    var doy := doe - (365 * yoe + yoe / 4 - yoe / 100);
    var moy := (5 * doy + 2) / 153;
    var y := 2000 + quot * 400 + yoe + (if 9 < moy then 1 else 0);
    var m := if 9 < moy then moy - 9 else moy + 3;
    var d := doy - (153 * moy + 2) / 5 + 1;
    Date(y, m, d)
  }

  // ---------------------------------------------------------------- closed form

  /** Days from the start of year 0 to the start of year `n`, years starting in March. */
  function YearStart(n: int): int {
    365 * n + n / 4 - n / 100 + n / 400
  }

  function MonthStart(moy: int): int {
    (153 * moy + 2) / 5
  }

  function MarchYear(x: Date): int {
    if x.m <= 2 then x.y - 1 else x.y
  }

  function MarchMonth(x: Date): int {
    if x.m <= 2 then x.m + 9 else x.m - 3
  }

  lemma EraSplit(y: int)
    ensures TruncDiv(if y < 0 then y - 399 else y, 400) == y / 400
    ensures var era, yoe := y / 400, y % 400; YearStart(y) == era * 146097 + yoe * 365 + yoe / 4 - yoe / 100
  {
    var era, yoe := y / 400, y % 400;
    assert y == era * 400 + yoe;
    assert y / 4 == 100 * era + yoe / 4;
    assert y / 100 == 4 * era + yoe / 100;
  }

  /** Day of the March-based year. */
  function DayOfYear(x: Date): int {
    MonthStart(MarchMonth(x)) + x.d - 1
  }

  function DayNumber(x: Date): int {
    YearStart(MarchYear(x)) + DayOfYear(x) - 719468
  }

  lemma ClosedForm(x: Date)
    requires 1 <= x.m <= 12 && x.d >= 1
    ensures DaysFromCivil(x.y, x.m, x.d) == DayNumber(x)
  {
    EraSplit(MarchYear(x));
  }

  lemma YearLength(n: int)
    ensures YearStart(n + 1) == YearStart(n) + (if IsLeap(n + 1) then 366 else 365)
  {
    assert (n + 1) / 4 == n / 4 + (if (n + 1) % 4 == 0 then 1 else 0);
    assert (n + 1) / 100 == n / 100 + (if (n + 1) % 100 == 0 then 1 else 0);
    assert (n + 1) / 400 == n / 400 + (if (n + 1) % 400 == 0 then 1 else 0);
    assert (n + 1) % 100 == 0 ==> (n + 1) % 4 == 0;
    assert (n + 1) % 400 == 0 ==> (n + 1) % 100 == 0;
  }

  lemma DayOfYearBounds(x: Date)
    requires Valid(x)
    ensures 0 <= DayOfYear(x) < if IsLeap(MarchYear(x) + 1) then 366 else 365
  {
  }

  lemma {:induction false} YearsApart(a: int, b: int)
    requires a < b
    ensures YearStart(a + 1) <= YearStart(b)
    decreases b - a
  {
    if a + 1 < b {
      YearsApart(a + 1, b);
      YearLength(a + 1);
    }
  }

  // ---------------------------------------------------------------- what the numbers mean

  /** The epoch. */
  lemma Epoch()
    ensures DaysFromCivil(1970, 1, 1) == 0
  {
  }

  /** The ranges the source's comments state. */
  lemma PartRanges(x: Date)
    requires Valid(x)
    ensures var p := CivilParts(x.y, x.m, x.d);
            0 <= p.yoe <= 399 && 0 <= p.doy <= 365 && 0 <= p.doe <= 146096
  {
    EraSplit(MarchYear(x));
    DayOfYearBounds(x);
  }

  lemma NextInYear(x: Date)
    requires Valid(x)
    ensures
      var n := NextDay(x);
      if x.m == 2 && x.d == DaysInMonth(x.y, 2)
      then MarchYear(n) == MarchYear(x) + 1 && DayOfYear(n) == 0 && DayOfYear(x) + 1 == if IsLeap(MarchYear(x) + 1) then 366 else 365
      else MarchYear(n) == MarchYear(x) && DayOfYear(n) == DayOfYear(x) + 1
  {
  }

  lemma NextNumber(x: Date)
    requires Valid(x)
    ensures DayNumber(NextDay(x)) == DayNumber(x) + 1
  {
    NextInYear(x);
    YearLength(MarchYear(x));
  }

  /** The calendar successor of any valid date, negative years included, has the next number. */
  lemma NextDayIsNext(x: Date)
    requires Valid(x)
    ensures var n := NextDay(x); DaysFromCivil(n.y, n.m, n.d) == DaysFromCivil(x.y, x.m, x.d) + 1
  {
    NextNumber(x);
    ClosedForm(x);
    ClosedForm(NextDay(x));
  }

  lemma NumberMonotone(a: Date, b: Date)
    requires Valid(a) && Valid(b) && Before(a, b)
    ensures DayNumber(a) < DayNumber(b)
  {
    DayOfYearBounds(a);
    DayOfYearBounds(b);
    if MarchYear(a) < MarchYear(b) {
      YearLength(MarchYear(a));
      YearsApart(MarchYear(a), MarchYear(b));
    } else if MarchMonth(a) < MarchMonth(b) {
      MonthsApart(MarchMonth(a), MarchMonth(b), a);
    }
  }

  /** Days are strictly monotone in the calendar order. */
  lemma StrictlyMonotone(a: Date, b: Date)
    requires Valid(a) && Valid(b) && Before(a, b)
    ensures DaysFromCivil(a.y, a.m, a.d) < DaysFromCivil(b.y, b.m, b.d)
  {
    NumberMonotone(a, b);
    ClosedForm(a);
    ClosedForm(b);
  }

  lemma MonthsApart(i: int, j: int, a: Date)
    requires Valid(a) && i == MarchMonth(a) && i < j <= 11
    ensures MonthStart(i) + a.d - 1 < MonthStart(j)
  {
    assert MonthStart(i + 1) <= MonthStart(j);
  }

  // ---------------------------------------------------------------- and back

  /** A day of the era by century, four-year group, year and day. */
  predicate InEra(c: int, k: int, j: int, r: int) {
    && 0 <= c <= 3 && 0 <= k <= 24 && 0 <= j <= 3 && 0 <= r <= 365
    && (r == 365 ==> j == 3 && (k < 24 || c == 3))
  }

  lemma YearOfEraExact(c: int, k: int, j: int, r: int)
    requires InEra(c, k, j, r)
    ensures YearOfEra(36524 * c + 1461 * k + 365 * j + r) == 100 * c + 4 * k + j
  {
    var doe := 36524 * c + 1461 * k + 365 * j + r;
    assert doe / 36524 - (if doe == 146096 then 1 else 0) == c;
    var x := 24 * c + k + 365 * j + r;
    assert doe == 1460 * (25 * c + k) + x;
    if x < 1460 {
      assert doe / 1460 == 25 * c + k;
    } else {
      assert doe / 1460 == 25 * c + k + 1;
    }
  }

  /** Splitting the day of the era. */
  lemma EraDigits(doe: int) returns (c: int, k: int, j: int, r: int)
    requires 0 <= doe <= 146096
    ensures InEra(c, k, j, r) && doe == 36524 * c + 1461 * k + 365 * j + r
  {
    c := if doe == 146096 then 3 else doe / 36524;
    var inCentury := doe - 36524 * c;
    k := if inCentury == 36524 then 24 else inCentury / 1461;
    var inGroup := inCentury - 1461 * k;
    j := if inGroup == 1460 then 3 else inGroup / 365;
    r := inGroup - 365 * j;
  }

  /** Splitting a year of the era. */
  lemma YearDigits(yoe: int) returns (c: int, k: int, j: int)
    requires 0 <= yoe <= 399
    ensures 0 <= c <= 3 && 0 <= k <= 24 && 0 <= j <= 3 && yoe == 100 * c + 4 * k + j
    ensures yoe * 365 + yoe / 4 - yoe / 100 == 36524 * c + 1461 * k + 365 * j
    ensures IsLeap(yoe + 1) <==> j == 3 && (k < 24 || c == 3)
  {
    c := yoe / 100;
    var e := yoe - 100 * c;
    k := e / 4;
    j := e - 4 * k;
    assert yoe / 4 == 25 * c + k;
    assert (yoe + 1) % 4 == (j + 1) % 4;
    assert (yoe + 1) % 100 == 0 <==> k == 24 && j == 3;
    assert (yoe + 1) % 400 == 0 <==> c == 3 && k == 24 && j == 3;
  }

  lemma MonthOfDay(doy: int)
    requires 0 <= doy <= 365
    ensures var moy := (5 * doy + 2) / 153; 0 <= moy <= 11 && MonthStart(moy) <= doy < MonthStart(moy + 1)
  {
  }

  /** The year and the day of the year that day `doe` of an era falls on. */
  lemma EraDay(doe: int)
    requires 0 <= doe <= 146096
    ensures
      var yoe := YearOfEra(doe);
      var doy := doe - (365 * yoe + yoe / 4 - yoe / 100);
      0 <= yoe <= 399 && 0 <= doy < if IsLeap(yoe + 1) then 366 else 365
  {
    var c, k, j, r := EraDigits(doe);
    YearOfEraExact(c, k, j, r);
    var yoe := 100 * c + 4 * k + j;
    var c', k', j' := YearDigits(yoe);
    assert c' == c && k' == k && j' == j;
  }

  lemma CivilShape(z: int) returns (n: int, moy: int, doy: int)
    ensures var x := CivilFromDays(z); Valid(x) && MarchYear(x) == n && DayOfYear(x) == doy
    ensures YearStart(n) + doy - 719468 == z
  {
    var (quot, doe) := DivUMod(z - 11017, 146097);
    EraDay(doe);
    var yoe := YearOfEra(doe);
    doy := doe - (365 * yoe + yoe / 4 - yoe / 100);
    MonthOfDay(doy);
    moy := (5 * doy + 2) / 153;
    n := 2000 + quot * 400 + yoe;
    LeapInEra(5 + quot, yoe);
    MonthLength(CivilFromDays(z), n, moy);
    YearOfThisEra(quot, yoe);
  }

  lemma YearOfThisEra(quot: int, yoe: int)
    requires 0 <= yoe <= 399
    ensures YearStart(2000 + quot * 400 + yoe) == (quot + 5) * 146097 + yoe * 365 + yoe / 4 - yoe / 100
  {
    var n := 2000 + quot * 400 + yoe;
    EraSplit(n);
    assert n == 400 * (quot + 5) + yoe;
    assert n / 400 == quot + 5 && n % 400 == yoe;
  }

  /** Day number to date to day number. */
  lemma DaysOfCivil(z: int)
    ensures Valid(CivilFromDays(z))
    ensures var x := CivilFromDays(z); DaysFromCivil(x.y, x.m, x.d) == z
  {
    var n, moy, doy := CivilShape(z);
    ClosedForm(CivilFromDays(z));
  }

  lemma LeapInEra(era: int, yoe: int)
    ensures IsLeap(era * 400 + yoe + 1) <==> IsLeap(yoe + 1)
  {
    Mod4(100 * era, yoe + 1);
    Mod100(4 * era, yoe + 1);
    Mod400(era, yoe + 1);
  }

  lemma Mod4(q: int, z: int)
    ensures (4 * q + z) % 4 == z % 4
  {
  }

  lemma Mod100(q: int, z: int)
    ensures (100 * q + z) % 100 == z % 100
  {
  }

  lemma Mod400(q: int, z: int)
    ensures (400 * q + z) % 400 == z % 400
  {
  }

  /** A day inside its March-based month, and inside its year, is inside its month. */
  lemma MonthLength(x: Date, n: int, moy: int)
    requires 0 <= moy <= 11
    requires x.y == (if 9 < moy then n + 1 else n) && x.m == (if 9 < moy then moy - 9 else moy + 3)
    requires 1 <= x.d && MonthStart(moy) + x.d - 1 < MonthStart(moy + 1)
    requires MonthStart(moy) + x.d - 1 < if IsLeap(n + 1) then 366 else 365
    ensures Valid(x) && MarchYear(x) == n && MarchMonth(x) == moy
  {
  }

  /** Date to day number to date: together with `DaysOfCivil`, valid dates and integers correspond
      one to one. */
  lemma CivilOfDays(x: Date)
    requires Valid(x)
    ensures CivilFromDays(DaysFromCivil(x.y, x.m, x.d)) == x
  {
    var z := DaysFromCivil(x.y, x.m, x.d);
    var w := CivilFromDays(z);
    DaysOfCivil(z);
    if Before(x, w) {
      StrictlyMonotone(x, w);
    } else if Before(w, x) {
      StrictlyMonotone(w, x);
    }
  }
}
