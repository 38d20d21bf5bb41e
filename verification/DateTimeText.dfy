/**
Printing and reading back: `formatDate` and `formatDateTime` against `parseDateInDays` and the
timestamp reader.
*/
module DateTimeText {
  import opened Wrappers
  import opened Numerals
  import opened Calendar
  import opened DateTimeFields
  import opened DateTimeParser
  import opened DateTimeTheorems

  // ---------------------------------------------------------------- printing

  function DateText(x: Date): string
    requires Valid(x)
  {
    PrintSigned(x.y, 4) + ['-'] + Print(x.m, 2) + ['-'] + Print(x.d, 2)
  }

  /** `formatDate`. */
  function FormatDate(unixtime: int): string {
    var day := DivUMod(unixtime, 24 * 60 * 60).0;
    DaysOfCivil(day);
    DateText(CivilFromDays(day))
  }

  function ClockText(hh: nat, mm: nat, ss: nat): string {
    Print(hh, 2) + [':'] + Print(mm, 2) + [':'] + Print(ss, 2)
  }

  function FractionText(fraction: nat, dim: nat): string {
    if dim == 0 then [] else ['.'] + Print(fraction, dim)
  }

  /** `formatDateTime`, into a buffer that is large enough. */
  function FormatDateTime(timestamp: int, dim: nat): string {
    var (quot, fraction) := DivUMod(timestamp, Pow10(dim));
    var (day, rem) := DivUMod(quot, 24 * 60 * 60);
    var minutes := rem / 60;
    DaysOfCivil(day);
    DateText(CivilFromDays(day)) + [' '] + ClockText(minutes / 60, minutes % 60, rem % 60) + FractionText(fraction, dim)
  }

  // ---------------------------------------------------------------- reading timestamps

  /** `unixTime`: an integer, optionally followed by a point and digits. */
  function UnixTime(s: string): Option<int> {
    var v := FromChars(s, |s|, INT64_MIN, INT64_MAX);
    if v.Some? && (v.value.rest == [] || (v.value.rest[0] == '.' && AllDigits(v.value.rest[1..]))) then Some(v.value.value)
    else None
  }

  /** One `setFormatType` and `parse`: the time, if any, and the text left. */
  function Phase(t: FormatType, s: string, dim: nat): (Option<int>, string)
    requires dim <= 9
  {
    FormatsKnown(t);
    var r := TryAll(Formats(t), s);
    if r.rest.None? then (None, s) else (Some(GetTime(Overlay(FRESH, r.writes), dim)), r.rest.value)
  }

  function DropFront(s: string, cs: set<char>): string {
    if s != [] && s[0] in cs then s[1..] else s
  }

  /** The specification of `dateTimeParseOptional<kTIMESTAMP>`. */
  function Timestamp(s: string, dim: nat): Option<int>
    requires dim <= 9
  {
    var text := DropFront(s, {'T'});
    var (date, timeOfDay) := Phase(DateType, text, dim);
    if date.None? then UnixTime(text) else AfterDate(date.value, timeOfDay, dim)
  }

  /** What follows the date: a time and a zone, each counting 0 if it does not parse. */
  function AfterDate(date: int, timeOfDay: string, dim: nat): Option<int>
    requires dim <= 9
  {
    if |timeOfDay| == 0 then None else WithTime(date, Phase(TimeType, DropFront(timeOfDay, {'T', ':'}), dim), dim)
  }

  function WithTime(date: int, time: (Option<int>, string), dim: nat): Option<int>
    requires dim <= 9
  {
    Some(date + Or(time.0, 0) + ZoneTime(time.1, dim))
  }

  function ZoneTime(zone: string, dim: nat): int
    requires dim <= 9
  {
    var (tz, _) := Phase(ZoneType, zone, dim);
    Or(tz, 0)
  }

  method RunPhase(parser: Parser, t: FormatType, s: string, dim: nat) returns (r: Option<int>, rest: string)
    requires dim <= 9
    modifies parser
    ensures (r, rest) == Phase(t, s, dim)
  {
    FormatsKnown(t);
    parser.SetFormatType(t);
    r := parser.Parse(s, dim);
    rest := parser.unparsed;
  }

  method RunAfterDate(parser: Parser, date: int, timeOfDay: string, dim: nat) returns (r: Option<int>)
    requires dim <= 9
    modifies parser
    ensures r == AfterDate(date, timeOfDay, dim)
  {
    r := None;
    if |timeOfDay| != 0 {
      var time, zone := RunPhase(parser, TimeType, DropFront(timeOfDay, {'T', ':'}), dim);
      var tz, _ := RunPhase(parser, ZoneType, zone, dim);
      r := Some(date + Or(time, 0) + Or(tz, 0));
    }
  }

  method ParseTimestamp(s: string, dim: nat) returns (r: Option<int>)
    requires dim <= 9
    ensures r == Timestamp(s, dim)
  {
    var text := DropFront(s, {'T'});
    var parser := new Parser(DateType);
    var date, timeOfDay := RunPhase(parser, DateType, text, dim);
    if date.None? {
      r := UnixTime(text);
    } else {
      r := RunAfterDate(parser, date.value, timeOfDay, dim);
    }
  }

  // ---------------------------------------------------------------- reading what was printed

  lemma NoSpace(s: string)
    requires s != [] && !IsSpace(s[0])
    ensures EatSpace(s) == s
  {
  }

  lemma TwoDigits(field: char, v: nat, rest: string)
    requires field in {'m', 'd', 'H', 'I', 'M'} && v < 100
    ensures EatSpace(Print(v, 2) + rest) == Print(v, 2) + rest
    ensures field in FIELDS
    ensures ScanField(field, Print(v, 2) + rest) ==
            if Bounds(field).0 <= v <= Bounds(field).1 then Scan(true, Write(field, v), rest) else Fail(Print(v, 2) + rest)
  {
    TwoDigitsRaw(v, rest);
  }

  lemma SignedFirst(n: int, width: nat)
    ensures var c := PrintSigned(n, width)[0]; c == '-' || IsDigit(c)
  {
    if n >= 0 {
      PrintDigits(n, width);
    }
  }

  lemma YearScan(y: int, rest: string)
    requires INT64_MIN <= y <= INT64_MAX && rest != [] && !IsDigit(rest[0])
    ensures var s := PrintSigned(y, 4) + rest;
            EatSpace(s) == s && ScanField('Y', s) == Scan(true, NO_WRITES.(Y := Some(y)), rest)
  {
    var s := PrintSigned(y, 4) + rest;
    ScanPrintedSigned(y, 4, rest, |s|);
    SignedFirst(y, 4);
    assert s[0] == '-' || IsDigit(s[0]);
    NoSpace(s);
  }

  /** A field, a separator and a tail, each of which reads its part of the text. */
  lemma ThreeParts(field: char, sep: char, tail: string, s: string, rest: string, w: Writes, r: Scan)
    requires Known(['%', field] + ([sep] + tail)) && sep != '%' && !IsSpace(sep) && Known(tail) && field in FIELDS
    requires EatSpace(s) == s && ScanField(field, s) == Scan(true, w, [sep] + rest)
    requires ScanFormat(tail, rest) == r
    ensures ScanFormat(['%', field] + ([sep] + tail), s) == r.(writes := Then(w, r.writes))
  {
    StepField(field, [sep] + tail, s);
    StepText(sep, tail, [sep] + rest);
    assert ([sep] + rest)[1..] == rest;
  }

  lemma ReadDay(d: nat, rest: string)
    requires 1 <= d <= 31
    ensures Known("%d") && ScanFormat("%d", Print(d, 2) + rest) == Scan(true, NO_WRITES.(d := Some(d)), rest)
  {
    assert "%d" == ['%', 'd'] + [];
    StepField('d', [], Print(d, 2) + rest);
    TwoDigits('d', d, rest);
  }

  lemma ReadMonthDay(m: nat, d: nat, rest: string)
    requires 1 <= m <= 12 && 1 <= d <= 31
    ensures Known("%m-%d")
    ensures ScanFormat("%m-%d", Print(m, 2) + (['-'] + (Print(d, 2) + rest))) ==
            Scan(true, NO_WRITES.(m := Some(m), d := Some(d)), rest)
  {
    var text := Print(d, 2) + rest;
    assert "%m-%d" == ['%', 'm'] + (['-'] + "%d");
    TwoDigits('m', m, ['-'] + text);
    ReadDay(d, rest);
    ThreeParts('m', '-', "%d", Print(m, 2) + (['-'] + text), text, Write('m', m), ScanFormat("%d", text));
  }

  lemma YearKnown()
    ensures Known("%Y-%m-%d")
  {
  }

  lemma ReadYearThen(y: int, text: string, r: Scan)
    requires INT64_MIN <= y <= INT64_MAX && Known("%m-%d") && ScanFormat("%m-%d", text) == r
    ensures Known("%Y-%m-%d")
    ensures ScanFormat("%Y-%m-%d", PrintSigned(y, 4) + (['-'] + text)) == r.(writes := Then(NO_WRITES.(Y := Some(y)), r.writes))
  {
    YearKnown();
    assert "%Y-%m-%d" == ['%', 'Y'] + (['-'] + "%m-%d");
    YearScan(y, ['-'] + text);
    ThreeParts('Y', '-', "%m-%d", PrintSigned(y, 4) + (['-'] + text), text, NO_WRITES.(Y := Some(y)), r);
  }

  lemma ReadYearMonthDay(y: int, m: nat, d: nat, rest: string)
    requires INT64_MIN <= y <= INT64_MAX && 1 <= m <= 12 && 1 <= d <= 31
    ensures Known("%Y-%m-%d")
    ensures ScanFormat("%Y-%m-%d", PrintSigned(y, 4) + (['-'] + (Print(m, 2) + (['-'] + (Print(d, 2) + rest))))) ==
            Scan(true, NO_WRITES.(Y := Some(y), m := Some(m), d := Some(d)), rest)
  {
    ReadMonthDay(m, d, rest);
    ReadYearThen(y, Print(m, 2) + (['-'] + (Print(d, 2) + rest)), Scan(true, NO_WRITES.(m := Some(m), d := Some(d)), rest));
  }

  lemma DateTextTail(x: Date, rest: string)
    requires Valid(x)
    ensures DateText(x) + rest == PrintSigned(x.y, 4) + (['-'] + (Print(x.m, 2) + (['-'] + (Print(x.d, 2) + rest))))
  {
  }

  /** The first date format reads a printed date, whatever follows it. */
  lemma ReadDate(x: Date, rest: string)
    requires Valid(x) && INT64_MIN <= x.y <= INT64_MAX
    ensures AllKnown(DATE_FORMATS)
    ensures FirstMatch(DATE_FORMATS, DateText(x) + rest) ==
            Some(Scan(true, NO_WRITES.(Y := Some(x.y), m := Some(x.m), d := Some(x.d)), rest))
  {
    FormatsKnown(DateType);
    DateTextTail(x, rest);
    ReadYearMonthDay(x.y, x.m, x.d, rest);
  }

  lemma YearBound(day: int)
    requires -200_000_000_000_000 <= day <= 200_000_000_000_000
    ensures -1_000_000_000_000 <= CivilFromDays(day).y <= 1_000_000_000_000
  {
    var n, moy, doy := CivilShape(day);
    DayOfYearBounds(CivilFromDays(day));
  }

  /** Printing a Unix time as a date and reading it back gives the day it falls on, for every
      64-bit time; like every day number it is narrowed to 32 bits. */
  lemma DateRoundTrip(unixtime: int)
    requires INT64_MIN <= unixtime <= INT64_MAX
    ensures AllKnown(DATE_FORMATS)
    ensures DateInDays(FormatDate(unixtime)) == Ok(IntegerColumns.Narrow(unixtime / 86400, 4))
  {
    var day := DivUMod(unixtime, 24 * 60 * 60).0;
    assert day == unixtime / 86400;
    YearBound(day);
    DaysOfCivil(day);
    ReadDate(CivilFromDays(day), []);
    assert FormatDate(unixtime) + [] == FormatDate(unixtime);
  }

  // ---------------------------------------------------------------- reading the clock

  lemma ReadSeconds(ss: nat, fraction: nat, dim: nat)
    requires ss <= 59 && dim <= 9 && fraction < Pow10(dim)
    ensures var s := Print(ss, 2) + FractionText(fraction, dim);
            && EatSpace(s) == s
            && ScanField('S', s) == Scan(true, NO_WRITES.(S := Some(ss), n := if dim == 0 then None else Some(fraction * Pow10(9 - dim))), [])
  {
    var f := FractionText(fraction, dim);
    var s := Print(ss, 2) + f;
    TwoDigitsRaw(ss, f);
    if dim == 0 {
      PlainSeconds(s, ss);
    } else {
      FractionSeconds(s, ss, f, fraction, dim);
    }
  }

  lemma FractionSeconds(s: string, ss: nat, f: string, fraction: nat, dim: nat)
    requires ss <= 59 && 1 <= dim <= 9 && fraction < Pow10(dim) && f == FractionText(fraction, dim)
    requires FromChars(s, 2, 0, UINT32_MAX) == Some(Scanned(ss, f))
    ensures ScanField('S', s) == Scan(true, NO_WRITES.(S := Some(ss), n := Some(fraction * Pow10(9 - dim))), [])
  {
    FractionScan(fraction, dim);
    SecondsWithFraction(s, ss, f, fraction, dim);
  }

  lemma PlainSeconds(s: string, ss: nat)
    requires ss <= 59 && FromChars(s, 2, 0, UINT32_MAX) == Some(Scanned(ss, []))
    ensures ScanField('S', s) == Scan(true, NO_WRITES.(S := Some(ss)), [])
  {
  }

  lemma TwoDigitsRaw(v: nat, rest: string)
    requires v < 100
    ensures EatSpace(Print(v, 2) + rest) == Print(v, 2) + rest
    ensures FromChars(Print(v, 2) + rest, 2, 0, UINT32_MAX) == Some(Scanned(v, rest))
  {
    PrintWidth(v, 2);
    PrintDigits(v, 2);
    ScanPrinted(v, 2, rest, 2, 0, UINT32_MAX);
    assert IsDigit((Print(v, 2) + rest)[0]);
    NoSpace(Print(v, 2) + rest);
  }

  lemma FractionScan(fraction: nat, dim: nat)
    requires 1 <= dim <= 9 && fraction < Pow10(dim)
    ensures |Print(fraction, dim)| == dim
    ensures FromChars(Print(fraction, dim), 9, 0, UINT32_MAX) == Some(Scanned(fraction, []))
  {
    Pow10Monotone(dim, 9);
    assert Pow10(9) == 1_000_000_000;
    PrintWidth(fraction, dim);
    ScanPrinted(fraction, dim, [], 9, 0, UINT32_MAX);
    assert Print(fraction, dim) + [] == Print(fraction, dim);
  }

  lemma SecondsWithFraction(s: string, ss: nat, f: string, fraction: nat, dim: nat)
    requires ss <= 59 && 1 <= dim <= 9 && |f| == dim + 1 && f[0] == '.'
    requires FromChars(s, 2, 0, UINT32_MAX) == Some(Scanned(ss, f))
    requires FromChars(f[1..], 9, 0, UINT32_MAX) == Some(Scanned(fraction, []))
    ensures ScanSeconds(s) == Scan(true, NO_WRITES.(S := Some(ss), n := Some(fraction * Pow10(9 - dim))), [])
  {
  }

  function FractionWrites(ss: nat, fraction: nat, dim: nat): Writes
    requires dim <= 9
  {
    NO_WRITES.(S := Some(ss), n := if dim == 0 then None else Some(fraction * Pow10(9 - dim)))
  }

  lemma ReadAmPmEnd()
    ensures Known("%p") && ScanFormat("%p", []) == Scan(true, NO_WRITES.(p := Some(None)), [])
  {
    assert "%p" == ['%', 'p'] + [];
    StepField('p', [], []);
  }

  lemma ReadS(s: string, w: Writes)
    requires EatSpace(s) == s && ScanField('S', s) == Scan(true, w, [])
    ensures Known("%S") && ScanFormat("%S", s) == Scan(true, w, [])
    ensures Known("%S %p") && ScanFormat("%S %p", s) == Scan(true, Then(w, NO_WRITES.(p := Some(None))), [])
  {
    assert "%S" == ['%', 'S'] + [];
    StepField('S', [], s);
    assert "%S %p" == ['%', 'S'] + ([' '] + "%p");
    StepField('S', [' '] + "%p", s);
    StepSpace("%p", []);
    ReadAmPmEnd();
  }

  /** A two-digit field and a colon before a tail that reads the rest. */
  lemma ReadColon(field: char, v: nat, tail: string, text: string, w: Writes)
    requires field in {'H', 'I', 'M'} && v < 100 && Bounds(field).0 <= v <= Bounds(field).1
    requires Known(tail) && Known(['%', field] + ([':'] + tail)) && ScanFormat(tail, text) == Scan(true, w, [])
    ensures EatSpace(Print(v, 2) + ([':'] + text)) == Print(v, 2) + ([':'] + text)
    ensures ScanFormat(['%', field] + ([':'] + tail), Print(v, 2) + ([':'] + text)) == Scan(true, Then(Write(field, v), w), [])
  {
    TwoDigits(field, v, [':'] + text);
    ThreeParts(field, ':', tail, Print(v, 2) + ([':'] + text), text, Write(field, v), ScanFormat(tail, text));
  }

  lemma ReadMS(mm: nat, s: string, w: Writes)
    requires mm <= 59 && EatSpace(s) == s && ScanField('S', s) == Scan(true, w, [])
    ensures Known("%M:%S") && ScanFormat("%M:%S", Print(mm, 2) + ([':'] + s)) == Scan(true, Then(Write('M', mm), w), [])
  {
    ReadS(s, w);
    assert "%M:%S" == ['%', 'M'] + ([':'] + "%S");
    ReadColon('M', mm, "%S", s, w);
  }

  lemma ReadMSp(mm: nat, s: string, w: Writes)
    requires mm <= 59 && EatSpace(s) == s && ScanField('S', s) == Scan(true, w, [])
    ensures Known("%M:%S %p")
    ensures ScanFormat("%M:%S %p", Print(mm, 2) + ([':'] + s)) ==
            Scan(true, Then(Write('M', mm), Then(w, NO_WRITES.(p := Some(None)))), [])
  {
    ReadS(s, w);
    assert "%M:%S %p" == ['%', 'M'] + ([':'] + "%S %p");
    ReadColon('M', mm, "%S %p", s, Then(w, NO_WRITES.(p := Some(None))));
  }

  lemma Read24(hh: nat, mm: nat, s: string, w: Writes)
    requires hh <= 23 && mm <= 59 && EatSpace(s) == s && ScanField('S', s) == Scan(true, w, [])
    ensures Known("%H:%M:%S")
    ensures ScanFormat("%H:%M:%S", Print(hh, 2) + ([':'] + (Print(mm, 2) + ([':'] + s)))) ==
            Scan(true, Then(Write('H', hh), Then(Write('M', mm), w)), [])
  {
    ReadMS(mm, s, w);
    assert "%H:%M:%S" == ['%', 'H'] + ([':'] + "%M:%S");
    ReadColon('H', hh, "%M:%S", Print(mm, 2) + ([':'] + s), Then(Write('M', mm), w));
  }

  /** The twelve-hour format reads hours 1 to 12, without am or pm... */
  lemma Read12(hh: nat, mm: nat, s: string, w: Writes)
    requires 1 <= hh <= 12 && mm <= 59 && EatSpace(s) == s && ScanField('S', s) == Scan(true, w, [])
    ensures Known("%I:%M:%S %p")
    ensures ScanFormat("%I:%M:%S %p", Print(hh, 2) + ([':'] + (Print(mm, 2) + ([':'] + s)))) ==
            Scan(true, Then(Write('H', hh), Then(Write('M', mm), Then(w, NO_WRITES.(p := Some(None))))), [])
  {
    ReadMSp(mm, s, w);
    ReadHourThen(hh, Print(mm, 2) + ([':'] + s), Then(Write('M', mm), Then(w, NO_WRITES.(p := Some(None)))));
  }

  lemma TwelveKnown()
    ensures Known("%I:%M:%S %p")
  {
  }

  lemma ReadHourThen(hh: nat, text: string, w: Writes)
    requires 1 <= hh <= 12 && Known("%M:%S %p") && ScanFormat("%M:%S %p", text) == Scan(true, w, [])
    ensures Known("%I:%M:%S %p")
    ensures ScanFormat("%I:%M:%S %p", Print(hh, 2) + ([':'] + text)) == Scan(true, Then(Write('H', hh), w), [])
  {
    TwelveKnown();
    assert "%I:%M:%S %p" == ['%', 'I'] + ([':'] + "%M:%S %p");
    ReadColon('I', hh, "%M:%S %p", text, w);
  }

  /** ... and on the others it fails before it writes anything. */
  lemma Skip12(hh: nat, rest: string)
    requires hh == 0 || 13 <= hh <= 23
    ensures Known("%I:%M:%S %p")
    ensures var r := ScanFormat("%I:%M:%S %p", Print(hh, 2) + rest); !r.ok && r.writes == NO_WRITES
  {
    assert "%I:%M:%S %p" == ['%', 'I'] + ":%M:%S %p";
    TwoDigits('I', hh, rest);
    StepField('I', ":%M:%S %p", Print(hh, 2) + rest);
  }

  lemma LeadingSpace(field: char, tail: string, s: string)
    requires Known(['%', field] + tail)
    ensures ScanFormat(['%', field] + tail, [' '] + s) == ScanFormat(['%', field] + tail, s)
  {
    assert ([' '] + s)[1..] == s;
    StepField(field, tail, s);
    StepField(field, tail, [' '] + s);
  }

  /** The time formats on a printed clock, after one space. */
  lemma ReadClock(hh: nat, mm: nat, s: string, w: Writes)
    requires hh <= 23 && mm <= 59 && EatSpace(s) == s && ScanField('S', s) == Scan(true, w, [])
    ensures AllKnown(TIME_FORMATS)
    ensures var r := TryAll(TIME_FORMATS, [' '] + (Print(hh, 2) + ([':'] + (Print(mm, 2) + ([':'] + s)))));
            r == Tried(Then(Write('H', hh), Then(Write('M', mm), if 1 <= hh <= 12 then Then(w, NO_WRITES.(p := Some(None))) else w)), Some([]))
  {
    var rest := [':'] + (Print(mm, 2) + ([':'] + s));
    var clock := Print(hh, 2) + rest;
    FormatsKnown(TimeType);
    TryTwo(TIME_FORMATS, [' '] + clock);
    assert "%I:%M:%S %p" == ['%', 'I'] + ":%M:%S %p";
    LeadingSpace('I', ":%M:%S %p", clock);
    if 1 <= hh <= 12 {
      Read12(hh, mm, s, w);
    } else {
      Skip12(hh, rest);
      Read24(hh, mm, s, w);
      assert "%H:%M:%S" == ['%', 'H'] + ":%M:%S";
      LeadingSpace('H', ":%M:%S", clock);
    }
  }

  /** Trying at least two formats, unfolded. */
  lemma TryTwo(formats: seq<string>, s: string)
    requires AllKnown(formats) && |formats| >= 2
    ensures var a, b := ScanFormat(formats[0], s), ScanFormat(formats[1], s);
            && (a.ok ==> TryAll(formats, s) == Tried(a.writes, Some(a.rest)))
            && (!a.ok && b.ok ==> TryAll(formats, s) == Tried(Then(a.writes, b.writes), Some(b.rest)))
  {
    assert formats[1..][0] == formats[1];
  }

  // ---------------------------------------------------------------- whole timestamps

  /** The text after the date, grouped to the right. */
  function ClockTail(hh: nat, mm: nat, ss: nat, fraction: nat, dim: nat): string {
    [' '] + (Print(hh, 2) + ([':'] + (Print(mm, 2) + ([':'] + (Print(ss, 2) + FractionText(fraction, dim))))))
  }

  /** What the time formats write when they read the clock. */
  function ClockWrites(hh: nat, mm: nat, ss: nat, fraction: nat, dim: nat): Writes
    requires dim <= 9
  {
    var w := FractionWrites(ss, fraction, dim);
    Then(Write('H', hh), Then(Write('M', mm), if 1 <= hh <= 12 then Then(w, NO_WRITES.(p := Some(None))) else w))
  }

  lemma ReadClockTail(hh: nat, mm: nat, ss: nat, fraction: nat, dim: nat)
    requires hh <= 23 && mm <= 59 && ss <= 59 && dim <= 9 && fraction < Pow10(dim)
    ensures AllKnown(TIME_FORMATS)
    ensures TryAll(TIME_FORMATS, ClockTail(hh, mm, ss, fraction, dim)) == Tried(ClockWrites(hh, mm, ss, fraction, dim), Some([]))
  {
    ReadSeconds(ss, fraction, dim);
    ReadClock(hh, mm, Print(ss, 2) + FractionText(fraction, dim), FractionWrites(ss, fraction, dim));
  }

  lemma TimePhase(clock: int, hh: nat, mm: nat, ss: nat, fraction: nat, dim: nat, text: string) returns (time: int)
    requires hh <= 23 && mm <= 59 && ss <= 59 && dim <= 9 && fraction < Pow10(dim) && clock == 3600 * hh + 60 * mm + ss
    requires text == ClockTail(hh, mm, ss, fraction, dim)
    ensures time == clock * Pow10(dim) + fraction
    ensures Phase(TimeType, text, dim) == (Some(time), [])
  {
    ReadClockTail(hh, mm, ss, fraction, dim);
    time := ClockTime(clock, hh, mm, ss, fraction, dim);
    PhaseFrom(TimeType, text, dim, ClockWrites(hh, mm, ss, fraction, dim), [], time);
  }

  lemma PhaseFrom(t: FormatType, s: string, dim: nat, w: Writes, rest: string, time: int)
    requires dim <= 9 && AllKnown(Formats(t)) && TryAll(Formats(t), s) == Tried(w, Some(rest))
    requires InRange(Overlay(FRESH, w)) && GetTime(Overlay(FRESH, w), dim) == time
    ensures Phase(t, s, dim) == (Some(time), rest)
  {
  }

  lemma ClockTime(clock: int, hh: nat, mm: nat, ss: nat, fraction: nat, dim: nat) returns (time: int)
    requires dim <= 9 && fraction < Pow10(dim) && clock == 3600 * hh + 60 * mm + ss
    ensures time == clock * Pow10(dim) + fraction
    ensures var x := Overlay(FRESH, ClockWrites(hh, mm, ss, fraction, dim));
            InRange(x) && GetTime(x, dim) == time
  {
    var n := if dim == 0 then 0 else fraction * Pow10(9 - dim);
    assert n >= 0;
    FractionBack(fraction, dim, n);
    time := FreshTime(clock, hh, mm, ss, n, fraction, dim);
    assert Overlay(FRESH, ClockWrites(hh, mm, ss, fraction, dim)) == FRESH.(H := hh, M := mm, S := ss, n := n);
  }

  lemma FractionBack(fraction: nat, dim: nat, n: int)
    requires dim <= 9 && fraction < Pow10(dim) && n == if dim == 0 then 0 else fraction * Pow10(9 - dim)
    ensures n / Pow10(9 - dim) == fraction
  {
    if dim == 0 {
      assert Pow10(0) == 1;
    } else {
      FloorUnique(n, Pow10(9 - dim), fraction, 0);
    }
  }

  lemma FreshTime(clock: int, hh: nat, mm: nat, ss: nat, n: int, fraction: nat, dim: nat) returns (time: int)
    requires dim <= 9 && n >= 0 && n / Pow10(9 - dim) == fraction && clock == 3600 * hh + 60 * mm + ss
    ensures time == clock * Pow10(dim) + fraction && time == GetTime(FRESH.(H := hh, M := mm, S := ss, n := n), dim)
  {
    Epoch();
    time := clock * Pow10(dim) + fraction;
  }

  lemma DatePhase(x: Date, day: int, rest: string, dim: nat) returns (time: int)
    requires Valid(x) && INT64_MIN <= x.y <= INT64_MAX && dim <= 9 && DaysFromCivil(x.y, x.m, x.d) == day
    ensures time == SECS_PER_DAY * day * Pow10(dim)
    ensures Phase(DateType, DateText(x) + rest, dim) == (Some(time), rest)
  {
    var s := DateText(x) + rest;
    FormatsKnown(DateType);
    DateTextTail(x, rest);
    ReadYearMonthDay(x.y, x.m, x.d, rest);
    TryTwo(DATE_FORMATS, s);
    var w := NO_WRITES.(Y := Some(x.y), m := Some(x.m), d := Some(x.d));
    time := GetTime(FRESH.(Y := x.y, m := x.m, d := x.d), dim);
    DateSeconds(FRESH.(Y := x.y, m := x.m, d := x.d));
    PhaseFrom(DateType, s, dim, w, rest, time);
  }

  lemma NoZone(dim: nat)
    requires dim <= 9
    ensures ZoneTime([], dim) == 0
  {
    FormatsKnown(ZoneType);
    assert "%z" == ['%', 'z'] + [];
    StepField('z', [], []);
    assert TryAll(ZONE_FORMATS[1..], []) == Tried(NO_WRITES, None);
  }

  lemma FirstChar(x: Date, rest: string)
    requires Valid(x)
    ensures DropFront(DateText(x) + rest, {'T'}) == DateText(x) + rest
  {
    var c := (DateText(x) + rest)[0];
    assert c == PrintSigned(x.y, 4)[0];
    SignedFirst(x.y, 4);
  }

  lemma AddTime(phase: (Option<int>, string), date: int, time: int, dim: nat)
    requires dim <= 9 && ZoneTime([], dim) == 0 && phase == (Some(time), [])
    ensures WithTime(date, phase, dim) == Some(date + time)
  {
  }

  lemma AssembleTail(tail: string, date: int, time: int, dim: nat)
    requires dim <= 9 && |tail| > 0 && DropFront(tail, {'T', ':'}) == tail
    requires Phase(TimeType, tail, dim) == (Some(time), []) && ZoneTime([], dim) == 0
    ensures AfterDate(date, tail, dim) == Some(date + time)
  {
    AddTime(Phase(TimeType, tail, dim), date, time, dim);
  }

  lemma Assemble(s: string, tail: string, date: int, time: int, dim: nat)
    requires dim <= 9 && DropFront(s, {'T'}) == s
    requires Phase(DateType, s, dim) == (Some(date), tail)
    requires AfterDate(date, tail, dim) == Some(date + time)
    ensures Timestamp(s, dim) == Some(date + time)
  {
  }

  lemma ReadTimestamp(x: Date, day: int, clock: int, hh: nat, mm: nat, ss: nat, fraction: nat, dim: nat) returns (date: int, time: int)
    requires Valid(x) && INT64_MIN <= x.y <= INT64_MAX && DaysFromCivil(x.y, x.m, x.d) == day
    requires hh <= 23 && mm <= 59 && ss <= 59 && dim <= 9 && fraction < Pow10(dim) && clock == 3600 * hh + 60 * mm + ss
    ensures date == SECS_PER_DAY * day * Pow10(dim)
    ensures time == clock * Pow10(dim) + fraction
    ensures Timestamp(DateText(x) + ClockTail(hh, mm, ss, fraction, dim), dim) == Some(date + time)
  {
    var tail := ClockTail(hh, mm, ss, fraction, dim);
    FirstChar(x, tail);
    date := DatePhase(x, day, tail, dim);
    time := TimePhase(clock, hh, mm, ss, fraction, dim, tail);
    NoZone(dim);
    AssembleTail(tail, date, time, dim);
    Assemble(DateText(x) + tail, tail, date, time, dim);
  }

  lemma TimestampTail(x: Date, hh: nat, mm: nat, ss: nat, fraction: nat, dim: nat)
    requires Valid(x)
    ensures DateText(x) + [' '] + ClockText(hh, mm, ss) + FractionText(fraction, dim) ==
            DateText(x) + ClockTail(hh, mm, ss, fraction, dim)
  {
  }

  /** The parts of a timestamp, and the text they are printed as. */
  lemma Dissect(timestamp: int, dim: nat) returns (day: int, clock: int, hh: nat, mm: nat, ss: nat, fraction: nat)
    requires INT64_MIN <= timestamp <= INT64_MAX && dim <= 9
    ensures hh <= 23 && mm <= 59 && ss <= 59 && fraction < Pow10(dim)
    ensures clock == 3600 * hh + 60 * mm + ss && timestamp == (86400 * day + clock) * Pow10(dim) + fraction
    ensures -200_000_000_000_000 <= day <= 200_000_000_000_000
    ensures Valid(CivilFromDays(day))
    ensures FormatDateTime(timestamp, dim) == DateText(CivilFromDays(day)) + ClockTail(hh, mm, ss, fraction, dim)
  {
    var (q, f) := DivUMod(timestamp, Pow10(dim));
    var (d, rem) := DivUMod(q, 24 * 60 * 60);
    var minutes := rem / 60;
    day, clock, hh, mm, ss, fraction := d, rem, minutes / 60, minutes % 60, rem % 60, f;
    ClockSplit(rem);
    QuotientBound(timestamp, Pow10(dim), q, f);
    DaysOfCivil(day);
    TimestampTail(CivilFromDays(day), hh, mm, ss, fraction, dim);
  }

  lemma ClockSplit(rem: int)
    requires 0 <= rem < 86400
    ensures var minutes := rem / 60;
            0 <= minutes / 60 <= 23 && 3600 * (minutes / 60) + 60 * (minutes % 60) + rem % 60 == rem
  {
  }

  /** Printing a timestamp and reading it back is the identity, at every precision, before the
      epoch too. */
  lemma TimestampRoundTrip(timestamp: int, dim: nat)
    requires INT64_MIN <= timestamp <= INT64_MAX && dim <= 9
    ensures Timestamp(FormatDateTime(timestamp, dim), dim) == Some(timestamp)
  {
    var day, clock, hh, mm, ss, fraction := Dissect(timestamp, dim);
    var x := DateOf(day);
    StampOf(x, day, clock, hh, mm, ss, fraction, dim, FormatDateTime(timestamp, dim), timestamp);
  }

  /** Reading a date and a time of day without zone overflows nowhere: neither the two times nor their sum. */
  predicate ReadingFits(s: string, dim: nat)
    requires dim <= 9
  {
    FormatsKnown(DateType);
    FormatsKnown(TimeType);
    var date := TryAll(DATE_FORMATS, s);
    && date.rest.Some?
    && var time := TryAll(TIME_FORMATS, DropFront(date.rest.value, {'T', ':'}));
       && time.rest == Some([])
       && SumsFit(Overlay(FRESH, date.writes), Overlay(FRESH, time.writes), dim)
  }

  predicate SumsFit(date: DateTime, clock: DateTime, dim: nat)
    requires dim <= 9
  {
    && InRange(date) && InRange(clock) && TimeFits(date, dim) && TimeFits(clock, dim)
    && Int64(GetTime(date, dim) + GetTime(clock, dim))
  }

  /** The start of the day that a timestamp falls on. */
  function DayStart(timestamp: int, dim: nat): int {
    SECS_PER_DAY * DivUMod(DivUMod(timestamp, Pow10(dim)).0, SECS_PER_DAY).0 * Pow10(dim)
  }

  /** Reading a printed timestamp back adds a time of day to the start of the day, and that is all that can
      overflow: nothing does, if and only if the start of the day fits. */
  lemma PrintedFits(timestamp: int, dim: nat)
    requires INT64_MIN <= timestamp <= INT64_MAX && dim <= 9
    ensures ReadingFits(FormatDateTime(timestamp, dim), dim) <==> INT64_MIN <= DayStart(timestamp, dim)
  {
    var day, clock, hh, mm, ss, fraction := Dissect(timestamp, dim);
    var x := DateOf(day);
    var tail := ClockTail(hh, mm, ss, fraction, dim);
    var d := FRESH.(Y := x.y, m := x.m, d := x.d);
    var c := FieldsRead(x, tail, hh, mm, ss, fraction, clock, dim);
    DayIs(day, clock, fraction, Pow10(dim), timestamp);
    SumsFitIff(d, c, day, clock, fraction, dim, timestamp);
  }

  lemma DayIs(day: int, clock: int, fraction: int, p: nat, timestamp: int)
    requires 0 <= clock < SECS_PER_DAY && 0 <= fraction < p && timestamp == (SECS_PER_DAY * day + clock) * p + fraction
    ensures DivUMod(DivUMod(timestamp, p).0, SECS_PER_DAY).0 == day
  {
    var (q, r) := DivUMod(timestamp, p);
    QuotientUnique(p, q, r, SECS_PER_DAY * day + clock, fraction);
  }

  /** The fields that are read from a date and its clock. */
  lemma FieldsRead(x: Date, tail: string, hh: nat, mm: nat, ss: nat, fraction: nat, clock: int, dim: nat) returns (c: DateTime)
    requires Valid(x) && INT64_MIN <= x.y <= INT64_MAX && tail == ClockTail(hh, mm, ss, fraction, dim)
    requires hh <= 23 && mm <= 59 && ss <= 59 && dim <= 9 && fraction < Pow10(dim) && clock == 3600 * hh + 60 * mm + ss
    ensures Instant(c) && Date(c.Y, c.m, c.d) == Date(1970, 1, 1) && GetTime(c, dim) == clock * Pow10(dim) + fraction
    ensures ReadingFits(DateText(x) + tail, dim) <==> SumsFit(FRESH.(Y := x.y, m := x.m, d := x.d), c, dim)
  {
    var s := DateText(x) + tail;
    ReadDate(x, tail);
    DateParserIsPure(FRESH, s);
    ReadClockTail(hh, mm, ss, fraction, dim);
    var time := ClockTime(clock, hh, mm, ss, fraction, dim);
    c := Overlay(FRESH, ClockWrites(hh, mm, ss, fraction, dim));
    ClockInstant(hh, mm, ss, fraction, dim);
    ReadingIs(s, dim, TryAll(DATE_FORMATS, s), tail, TryAll(TIME_FORMATS, tail));
  }

  lemma ReadingIs(s: string, dim: nat, date: Tried, tail: string, time: Tried)
    requires dim <= 9 && AllKnown(DATE_FORMATS) && AllKnown(TIME_FORMATS)
    requires date == TryAll(DATE_FORMATS, s) && date.rest == Some(tail) && DropFront(tail, {'T', ':'}) == tail
    requires time == TryAll(TIME_FORMATS, tail) && time.rest == Some([])
    ensures ReadingFits(s, dim) <==> SumsFit(Overlay(FRESH, date.writes), Overlay(FRESH, time.writes), dim)
  {
  }

  lemma ClockInstant(hh: nat, mm: nat, ss: nat, fraction: nat, dim: nat)
    requires hh <= 23 && mm <= 59 && ss <= 59 && dim <= 9 && fraction < Pow10(dim)
    ensures var c := Overlay(FRESH, ClockWrites(hh, mm, ss, fraction, dim));
            Instant(c) && Date(c.Y, c.m, c.d) == Date(1970, 1, 1)
  {
    var n := Nanoseconds(fraction, dim);
    assert Overlay(FRESH, ClockWrites(hh, mm, ss, fraction, dim)) == FRESH.(H := hh, M := mm, S := ss, n := n);
  }

  lemma Nanoseconds(fraction: nat, dim: nat) returns (n: int)
    requires dim <= 9 && fraction < Pow10(dim)
    ensures n == (if dim == 0 then 0 else fraction * Pow10(9 - dim)) && 0 <= n < Pow10(9)
  {
    n := if dim == 0 then 0 else fraction * Pow10(9 - dim);
    Pow10Sum(dim, 9 - dim);
    FractionBelow(fraction, Pow10(dim), Pow10(9 - dim));
  }

  lemma FractionBelow(f: nat, p: nat, q: nat)
    requires f < p && q >= 1
    ensures 0 <= f * q < p * q
  {
    assert p * q - f * q == (p - f) * q;
    AtLeast(p - f, q);
  }

  lemma SumsFitIff(d: DateTime, c: DateTime, day: int, clock: int, fraction: nat, dim: nat, timestamp: int)
    requires dim <= 9 && InRange(d) && d == FRESH.(Y := d.Y, m := d.m, d := d.d) && d.d <= 31 && DaysFromCivil(d.Y, d.m, d.d) == day
    requires Instant(c) && Date(c.Y, c.m, c.d) == Date(1970, 1, 1) && GetTime(c, dim) == clock * Pow10(dim) + fraction
    requires clock >= 0 && timestamp == (86400 * day + clock) * Pow10(dim) + fraction && INT64_MIN <= timestamp <= INT64_MAX
    ensures SumsFit(d, c, dim) <==> INT64_MIN <= SECS_PER_DAY * day * Pow10(dim)
  {
    ClockFits(c, dim);
    DateFits(d, dim);
    DateSeconds(d);
    SumUp(day, clock, Pow10(dim), fraction, GetTime(d, dim), GetTime(c, dim), timestamp);
    StartBelow(SECS_PER_DAY * day, clock, Pow10(dim), fraction, timestamp);
  }

  lemma StartBelow(start: int, rem: int, p: int, f: int, timestamp: int)
    requires 0 <= rem && p >= 1 && 0 <= f && timestamp == (start + rem) * p + f
    ensures start * p <= timestamp
  {
    assert (start + rem) * p == start * p + rem * p;
  }

  lemma DateOf(day: int) returns (x: Date)
    requires -200_000_000_000_000 <= day <= 200_000_000_000_000
    ensures x == CivilFromDays(day) && Valid(x) && INT64_MIN <= x.y <= INT64_MAX && DaysFromCivil(x.y, x.m, x.d) == day
  {
    DaysOfCivil(day);
    YearBound(day);
    x := CivilFromDays(day);
  }

  lemma StampOf(x: Date, day: int, clock: int, hh: nat, mm: nat, ss: nat, fraction: nat, dim: nat, text: string, stamp: int)
    requires Valid(x) && INT64_MIN <= x.y <= INT64_MAX && DaysFromCivil(x.y, x.m, x.d) == day
    requires hh <= 23 && mm <= 59 && ss <= 59 && dim <= 9 && fraction < Pow10(dim) && clock == 3600 * hh + 60 * mm + ss
    requires text == DateText(x) + ClockTail(hh, mm, ss, fraction, dim)
    requires stamp == (86400 * day + clock) * Pow10(dim) + fraction
    ensures Timestamp(text, dim) == Some(stamp)
  {
    var date, time := ReadTimestamp(x, day, clock, hh, mm, ss, fraction, dim);
    SumUp(day, clock, Pow10(dim), fraction, date, time, stamp);
    SameStamp(text, dim, date, time, stamp);
  }

  lemma SameStamp(text: string, dim: nat, date: int, time: int, stamp: int)
    requires dim <= 9 && Timestamp(text, dim) == Some(date + time) && date + time == stamp
    ensures Timestamp(text, dim) == Some(stamp)
  {
  }

  lemma SumUp(day: int, clock: int, p: nat, fraction: nat, date: int, time: int, stamp: int)
    requires date == SECS_PER_DAY * day * p && time == clock * p + fraction
    requires stamp == (86400 * day + clock) * p + fraction
    ensures date + time == stamp
  {
  }

  lemma QuotientBound(num: int, den: nat, quot: int, rem: int)
    requires den >= 1 && num == quot * den + rem && 0 <= rem < den && INT64_MIN <= num <= INT64_MAX
    ensures INT64_MIN <= quot <= INT64_MAX
  {
    AtLeast(quot, den);
    AtLeast(-quot - 1, den);
    assert (-quot - 1) * den == -(quot * den) - den;
  }

  lemma AtLeast(q: int, den: nat)
    requires den >= 1
    ensures q >= 0 ==> q * den >= q
  {
  }
}
