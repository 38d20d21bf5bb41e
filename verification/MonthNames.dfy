/**
Dates with a full month name: which of them are read as dates.
*/
module MonthNames {
  import opened Wrappers
  import opened Numerals
  import opened DateTimeParser
  import opened DateTimeTheorems
  import opened DateTimeText

  /** A full month name in any case. */
  predicate IsName(name: string, month: nat)
    requires 1 <= month <= 12
  {
    |name| == |MONTH_NAMES[month - 1]| && StartsWithNoCase(name, MONTH_NAMES[month - 1])
  }

  predicate IsDay(day: string) {
    AllDigits(day) && 1 <= |day| <= 2 && 1 <= Value(day) <= 31
  }

  predicate IsSeparator(c: char) {
    c == '-' || c == '/'
  }

  /** What two digits say: a year of this or the last century after a hyphen, and themselves after a slash. */
  function YearOf(sep: char, year: nat): int {
    if sep == '/' then year else if year < 69 then 2000 + year else 1900 + year
  }

  function TextOf(day: string, name: string, year: string, sep: char, rest: string): string {
    day + ([sep] + (name + ([sep] + (year + rest))))
  }

  // ---------------------------------------------------------------- numbers

  lemma DigitsScan(p: string, t: string, maxLen: nat, lo: int, hi: int)
    requires p != [] && AllDigits(p) && (t != [] ==> !IsDigit(t[0])) && maxLen >= |p| && lo <= 0 && Value(p) <= hi
    ensures FromChars(p + t, maxLen, lo, hi) == Some(Scanned(Value(p), t))
  {
    var s := p + t;
    var w := if maxLen < |s| then s[..maxLen] else s;
    assert s[|p|..] == t && s[0] == p[0] && IsDigit(s[0]);
    FirstDigits(p, t, w);
  }

  lemma FirstDigits(p: string, t: string, w: string)
    requires AllDigits(p) && (t != [] ==> !IsDigit(t[0])) && |p| <= |w| && w <= p + t
    ensures DigitRun(w) == |p| && w[..|p|] == p
  {
    assert w[..|p|] == p;
    if |w| > |p| {
      assert w[|p|] == t[0];
    }
    DigitRunIs(w, |p|);
  }

  lemma NoDigitScan(s: string, maxLen: nat, lo: int, hi: int)
    requires s != [] && !IsDigit(s[0]) && s[0] != '-'
    ensures FromChars(s, maxLen, lo, hi) == None
  {
  }

  /** A day, and what can come of it as the first field of a format. */
  lemma DayScan(a: char, day: string, t: string)
    requires IsDay(day) && t != [] && !IsDigit(t[0]) && (a == 'Y' || a == 'm' || a == 'd')
    ensures a in FIELDS && EatSpace(day + t) == day + t
    ensures var f := ScanField(a, day + t);
            (f.ok ==> f.rest == t) && (a == 'd' ==> f == Scan(true, NO_WRITES.(d := Some(Value(day))), t))
  {
    DigitsScan(day, t, 2, 0, UINT32_MAX);
    DigitsScan(day, t, |day + t|, INT64_MIN, INT64_MAX);
    assert (day + t)[0] == day[0] && IsDigit(day[0]);
    NoSpace(day + t);
  }

  lemma YearScans(year: string, rest: string)
    requires AllDigits(year) && |year| == 2 && (rest != [] ==> !IsDigit(rest[0]))
    ensures EatSpace(year + rest) == year + rest
    ensures ScanField('y', year + rest) == Scan(true, NO_WRITES.(Y := Some(YearOf('-', Value(year)))), rest)
    ensures ScanField('Y', year + rest) == Scan(true, NO_WRITES.(Y := Some(YearOf('/', Value(year)))), rest)
  {
    var s := year + rest;
    ValueBound(year);
    assert Pow10(2) == 100;
    DigitsScan(year, rest, |s|, 0, UINT32_MAX);
    DigitsScan(year, rest, |s|, INT64_MIN, INT64_MAX);
    assert s[0] == year[0] && IsDigit(year[0]);
    NoSpace(s);
  }

  // ---------------------------------------------------------------- names

  lemma NameStarts(name: string, month: nat)
    requires 1 <= month <= 12 && IsName(name, month)
    ensures |name| >= 3 && Lower(name[0]) == MONTH_PREFIXES[month - 1][0] && 'a' <= Lower(name[0]) <= 'z'
    ensures StartsWithNoCase(name, MONTH_PREFIXES[month - 1])
  {
    var full := MONTH_NAMES[month - 1];
    assert full[..3] == MONTH_PREFIXES[month - 1];
    assert forall i | 0 <= i < 3 :: full[..3][i] == full[i];
  }

  /** The three letters decide. */
  lemma PrefixesDiffer(s: string, i: nat, j: nat)
    requires i < 12 && j < 12 && StartsWithNoCase(s, MONTH_PREFIXES[i]) && StartsWithNoCase(s, MONTH_PREFIXES[j])
    ensures i == j
  {
    assert forall k | 0 <= k < 3 :: MONTH_PREFIXES[i][k] == Lower(s[k]) == MONTH_PREFIXES[j][k];
    assert MONTH_PREFIXES[i][0] == MONTH_PREFIXES[j][0] && MONTH_PREFIXES[i][1] == MONTH_PREFIXES[j][1] && MONTH_PREFIXES[i][2] == MONTH_PREFIXES[j][2];
  }

  lemma {:induction false} MonthFound(s: string, month: nat, i: nat)
    requires 1 <= month <= 12 && i < month && StartsWithNoCase(s, MONTH_PREFIXES[month - 1])
    ensures MonthFrom(s, i) == month
    decreases 12 - i
  {
    if StartsWithNoCase(s, MONTH_PREFIXES[i]) {
      PrefixesDiffer(s, i, month - 1);
    } else {
      MonthFound(s, month, i + 1);
    }
  }

  /** What a full name leaves unread: nothing of itself, or all from its fourth letter on. */
  lemma NameScan(name: string, month: nat, t: string)
    requires 1 <= month <= 12 && IsName(name, month) && t != [] && IsSeparator(t[0])
    ensures |name| >= 3 && EatSpace(name + t) == name + t
    ensures var f := ScanField('b', name + t);
            && f.ok && f.writes == NO_WRITES.(m := Some(month))
            && if month == 5 || month == 11 then f.rest == t else f.rest != [] && 'a' <= Lower(f.rest[0]) <= 'z'
  {
    var s := name + t;
    NameStarts(name, month);
    assert s[0] == name[0];
    NoSpace(s);
    assert StartsWithNoCase(s, MONTH_PREFIXES[month - 1]);
    MonthFound(s, month, 0);
    FullMonthNames(month, name, t);
    if month != 5 && month != 11 {
      OtherName(name, month, t);
    }
  }

  lemma OtherName(name: string, month: nat, t: string)
    requires 1 <= month <= 12 && month != 5 && month != 11 && IsName(name, month)
    ensures |name| > 3 && EatMonth(month, name + t) == (name + t)[3..] && (name + t)[3] == name[3]
    ensures 'a' <= Lower(name[3]) <= 'z'
  {
    OtherTail(month, name);
    assert Lower(name[3]) == MONTH_NAMES[month - 1][3];
    assert (name + t)[3..][0] == name[3];
  }

  // ---------------------------------------------------------------- formats

  /** The rest of a format of three fields. */
  function Pair(b: char, c: char, sep: char): string {
    ['%', b] + ([sep] + (['%', c] + []))
  }

  lemma TripleIs(a: char, b: char, c: char, sep: char)
    requires DateField(a) && DateField(b) && DateField(c) && IsSeparator(sep)
    ensures Triple(a, b, c, sep) == ['%', a] + ([sep] + Pair(b, c, sep))
    ensures Known(Triple(a, b, c, sep)) && Known([sep] + Pair(b, c, sep)) && Known(Pair(b, c, sep)) && Known(['%', c] + [])
  {
    assert Triple(a, b, c, sep) == ['%', a] + ([sep] + Pair(b, c, sep));
    TripleCovers(a, b, c, sep);
    KnownSuffix([sep] + Pair(b, c, sep), Triple(a, b, c, sep));
    KnownSuffix(Pair(b, c, sep), Triple(a, b, c, sep));
    KnownSuffix(['%', c] + [], Triple(a, b, c, sep));
  }

  /** A day is followed by another separator, or by a name where the format has a number. */
  lemma DayThenFails(a: char, b: char, c: char, sep: char, day: string, t: string)
    requires (a == 'Y' || a == 'm' || a == 'd') && DateField(b) && DateField(c) && IsSeparator(sep)
    requires IsDay(day) && t != [] && IsSeparator(t[0])
    requires t[0] != sep || ((b == 'm' || b == 'd') && |t| > 1 && 'a' <= Lower(t[1]) <= 'z')
    ensures Known(Triple(a, b, c, sep)) && !ScanFormat(Triple(a, b, c, sep), day + t).ok
  {
    TripleIs(a, b, c, sep);
    DayScan(a, day, t);
    StepField(a, [sep] + Pair(b, c, sep), day + t);
    StepText(sep, Pair(b, c, sep), t);
    if t[0] == sep {
      NumberFails(b, [sep] + (['%', c] + []), t[1..]);
    }
  }

  lemma NumberFails(b: char, tail: string, s: string)
    requires (b == 'm' || b == 'd') && Known(['%', b] + tail) && s != [] && 'a' <= Lower(s[0]) <= 'z'
    ensures !ScanFormat(['%', b] + tail, s).ok
  {
    NoSpace(s);
    NoDigitScan(s, 2, 0, UINT32_MAX);
    StepField(b, tail, s);
  }

  /** The formats with a name. */
  lemma NameFormat(day: string, month: nat, name: string, year: string, sep: char, rest: string)
    requires 1 <= month <= 12 && IsName(name, month) && IsDay(day) && IsSeparator(sep)
    requires AllDigits(year) && |year| == 2 && (rest != [] ==> !IsDigit(rest[0]))
    ensures var format := Triple('d', 'b', if sep == '-' then 'y' else 'Y', sep);
            var r := ScanFormat(format, TextOf(day, name, year, sep, rest));
            && Known(format)
            && if month == 5 || month == 11 then
                 r == Scan(true, NO_WRITES.(Y := Some(YearOf(sep, Value(year))), m := Some(month), d := Some(Value(day))), rest)
               else !r.ok
  {
    var c := if sep == '-' then 'y' else 'Y';
    var t := [sep] + (year + rest);
    var u := [sep] + (name + t);
    TripleIs('d', 'b', c, sep);
    DayScan('d', day, u);
    StepField('d', [sep] + Pair('b', c, sep), day + u);
    StepText(sep, Pair('b', c, sep), u);
    assert u[1..] == name + t;
    NameThenYear(month, name, year, sep, rest, c);
  }

  lemma NameThenYear(month: nat, name: string, year: string, sep: char, rest: string, c: char)
    requires 1 <= month <= 12 && IsName(name, month) && IsSeparator(sep) && c == if sep == '-' then 'y' else 'Y'
    requires AllDigits(year) && |year| == 2 && (rest != [] ==> !IsDigit(rest[0]))
    requires Known(Pair('b', c, sep)) && Known(['%', c] + [])
    ensures var r := ScanFormat(Pair('b', c, sep), name + ([sep] + (year + rest)));
            if month == 5 || month == 11 then r == Scan(true, NO_WRITES.(Y := Some(YearOf(sep, Value(year))), m := Some(month)), rest)
            else !r.ok
  {
    var t := [sep] + (year + rest);
    NameScan(name, month, t);
    StepField('b', [sep] + (['%', c] + []), name + t);
    StepText(sep, ['%', c] + [], ScanField('b', name + t).rest);
    assert t[1..] == year + rest;
    YearScans(year, rest);
    StepField(c, [], year + rest);
  }

  // ---------------------------------------------------------------- whole dates

  /** Of the dates with a full month name, after a hyphen or a slash and before anything that is no digit, those
      in May and November are read, as what they say, and no others. */
  lemma NamedDates(day: string, month: nat, name: string, year: string, sep: char, rest: string)
    requires 1 <= month <= 12 && IsName(name, month) && IsDay(day) && IsSeparator(sep)
    requires AllDigits(year) && |year| == 2 && (rest != [] ==> !IsDigit(rest[0]))
    ensures AllKnown(DATE_FORMATS)
    ensures FirstMatch(DATE_FORMATS, TextOf(day, name, year, sep, rest)) ==
            if month == 5 || month == 11
            then Some(Scan(true, NO_WRITES.(Y := Some(YearOf(sep, Value(year))), m := Some(month), d := Some(Value(day))), rest))
            else None
  {
    DateFormatsKnown();
    DateFormatsAre();
    var text := TextOf(day, name, year, sep, rest);
    NumbersFail(DATE_FORMATS, day, month, name, year, sep, rest);
    NamesRead(DATE_FORMATS, day, month, name, year, sep, rest);
    var k := if sep == '-' then 4 else 5;
    OnlyOne(Scans(DATE_FORMATS, text), k);
    InTurn(DATE_FORMATS, text, 0);
    assert DATE_FORMATS[0..] == DATE_FORMATS;
  }

  predicate DateFormats(f: seq<string>) {
    && |f| == 6 && AllKnown(f)
    && f[0] == Triple('Y', 'm', 'd', '-') && f[1] == Triple('m', 'd', 'y', '/') && f[2] == Triple('m', 'd', 'Y', '/')
    && f[3] == Triple('Y', 'm', 'd', '/') && f[4] == Triple('d', 'b', 'y', '-') && f[5] == Triple('d', 'b', 'Y', '/')
  }

  lemma DateFormatsAre()
    ensures DateFormats(DATE_FORMATS)
  {
    DateFormatsKnown();
  }

  lemma NumbersFail(f: seq<string>, day: string, month: nat, name: string, year: string, sep: char, rest: string)
    requires DateFormats(f) && 1 <= month <= 12 && IsName(name, month) && IsDay(day) && IsSeparator(sep)
    ensures var rs := Scans(f, TextOf(day, name, year, sep, rest)); !rs[0].ok && !rs[1].ok && !rs[2].ok && !rs[3].ok
  {
    var t := [sep] + (name + ([sep] + (year + rest)));
    NameStarts(name, month);
    assert t[1] == name[0];
    DayThenFails('Y', 'm', 'd', '-', day, t);
    DayThenFails('m', 'd', 'y', '/', day, t);
    DayThenFails('m', 'd', 'Y', '/', day, t);
    DayThenFails('Y', 'm', 'd', '/', day, t);
  }

  lemma NamesRead(f: seq<string>, day: string, month: nat, name: string, year: string, sep: char, rest: string)
    requires DateFormats(f) && 1 <= month <= 12 && IsName(name, month) && IsDay(day) && IsSeparator(sep)
    requires AllDigits(year) && |year| == 2 && (rest != [] ==> !IsDigit(rest[0]))
    ensures var rs := Scans(f, TextOf(day, name, year, sep, rest));
            var r := rs[if sep == '-' then 4 else 5];
            && !rs[if sep == '-' then 5 else 4].ok
            && if month == 5 || month == 11 then
                 r == Scan(true, NO_WRITES.(Y := Some(YearOf(sep, Value(year))), m := Some(month), d := Some(Value(day))), rest)
               else !r.ok
  {
    var t := [sep] + (name + ([sep] + (year + rest)));
    NameFormat(day, month, name, year, sep, rest);
    if sep == '-' {
      DayThenFails('d', 'b', 'Y', '/', day, t);
    } else {
      DayThenFails('d', 'b', 'y', '-', day, t);
    }
  }

  /** Only the format at `k` can match. */
  lemma OnlyOne(rs: seq<Scan>, k: nat)
    requires |rs| == 6 && (k == 4 || k == 5) && !rs[0].ok && !rs[1].ok && !rs[2].ok && !rs[3].ok && !rs[9 - k].ok
    ensures FirstFrom(rs, 0) == if rs[k].ok then Some(rs[k]) else None
  {
    assert FirstFrom(rs, 6) == None;
    assert FirstFrom(rs, 4) == if rs[k].ok then Some(rs[k]) else None;
    assert FirstFrom(rs, 2) == FirstFrom(rs, 4);
  }
}
