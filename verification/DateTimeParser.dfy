/**
The format-driven date and time parser.  `ScanFormat` says what one format accepts and which
fields it writes; the class is the source's parser, which writes into one `dt_` while it tries
format after format and never takes a failed format's writes back.
*/
module DateTimeParser {
  import opened Wrappers
  import opened Numerals
  import opened DateTimeFields
  import Calendar

  // ---------------------------------------------------------------- writes to dt_

  /** Which fields were written, and with what. */
  datatype Writes = Writes(
    Y: Option<int>, m: Option<int>, d: Option<int>, H: Option<int>, M: Option<int>, S: Option<int>,
    n: Option<int>, z: Option<int>, p: Option<Option<bool>>)

  const NO_WRITES := Writes(None, None, None, None, None, None, None, None, None)

  function Or<T>(a: Option<T>, b: T): T { if a.Some? then a.value else b }

  function OrElse<T>(a: Option<T>, b: Option<T>): Option<T> { if a.Some? then a else b }

  function Overlay(x: DateTime, w: Writes): DateTime {
    DateTime(Or(w.Y, x.Y), Or(w.m, x.m), Or(w.d, x.d), Or(w.H, x.H), Or(w.M, x.M), Or(w.S, x.S),
             Or(w.n, x.n), Or(w.z, x.z), Or(w.p, x.p))
  }

  /** `a`, then `b`. */
  function Then(a: Writes, b: Writes): Writes {
    Writes(OrElse(b.Y, a.Y), OrElse(b.m, a.m), OrElse(b.d, a.d), OrElse(b.H, a.H), OrElse(b.M, a.M), OrElse(b.S, a.S),
           OrElse(b.n, a.n), OrElse(b.z, a.z), OrElse(b.p, a.p))
  }

  /** Writes that keep the fields usable. */
  predicate Sane(w: Writes) {
    && (w.m.Some? ==> 1 <= w.m.value <= 12)
    && (w.d.Some? ==> 1 <= w.d.value)
    && (w.n.Some? ==> 0 <= w.n.value)
  }

  lemma OverlayThen(x: DateTime, a: Writes, b: Writes)
    ensures Overlay(Overlay(x, a), b) == Overlay(x, Then(a, b))
  {
  }

  // ---------------------------------------------------------------- text

  predicate IsSpace(c: char) {
    c == ' ' || c == '\t' || c == '\n' || c == '\r' || c as int == 11 || c as int == 12
  }

  predicate IsSuffix(r: string, s: string) {
    |r| <= |s| && s[|s| - |r|..] == r
  }

  lemma SuffixTrans(a: string, b: string, c: string)
    requires IsSuffix(a, b) && IsSuffix(b, c)
    ensures IsSuffix(a, c)
  {
    assert c[|c| - |a|..] == c[|c| - |b|..][|b| - |a|..];
  }

  function EatSpace(s: string): (r: string)
    ensures |r| <= |s|
  {
    if s != [] && IsSpace(s[0]) then EatSpace(s[1..]) else s
  }

  lemma {:induction false} EatSpaceSuffix(s: string)
    ensures IsSuffix(EatSpace(s), s)
    decreases |s|
  {
    if s != [] && IsSpace(s[0]) {
      EatSpaceSuffix(s[1..]);
      SuffixTrans(EatSpace(s), s[1..], s);
    }
  }

  function Lower(c: char): char {
    if 'A' <= c <= 'Z' then (c as int + 32) as char else c
  }

  /** `boost::algorithm::istarts_with`, for a lower-case prefix. */
  predicate StartsWithNoCase(s: string, prefix: string) {
    |prefix| <= |s| && forall i | 0 <= i < |prefix| :: Lower(s[i]) == prefix[i]
  }

  const MONTH_PREFIXES: seq<string> := ["jan", "feb", "mar", "apr", "may", "jun", "jul", "aug", "sep", "oct", "nov", "dec"]

  /** The table as the source declares it: the first entry is `"" "uary"`, one string, so that
      entry `i` belongs to month `i + 1`; the thirteenth entry is empty. */
  const MONTH_SUFFIXES: seq<string> := ["uary", "ruary", "ch", "il", "", "e", "y", "ust", "tember", "ober", "ember", "ember", ""]

  /** Month (1-12) whose first three letters `s` starts with, or 0. */
  function MonthOf(s: string): (m: nat)
    ensures m <= 12 && (m > 0 ==> |s| >= 3)
  {
    MonthFrom(s, 0)
  }

  function MonthFrom(s: string, i: nat): (m: nat)
    requires i <= 12
    ensures m <= 12 && (m > 0 ==> |s| >= 3)
    decreases 12 - i
  {
    if i == 12 then 0
    else if StartsWithNoCase(s, MONTH_PREFIXES[i]) then i + 1
    else MonthFrom(s, i + 1)
  }

  /** `eatMonth`: drops three letters, then the table's suffix if it is there. */
  function EatMonth(month: nat, s: string): (r: string)
    requires 1 <= month <= 12 && |s| >= 3
    ensures |r| < |s|
  {
    var t := s[3..];
    var suffix := MONTH_SUFFIXES[month];
    if StartsWithNoCase(t, suffix) then t[|suffix|..] else t
  }

  // ---------------------------------------------------------------- one field

  datatype Scan = Scan(ok: bool, writes: Writes, rest: string)

  function Fail(s: string): Scan { Scan(false, NO_WRITES, s) }

  function Bounded(s: string, lo: int, hi: int): (r: Option<Scanned>)
    ensures r.Some? ==> lo <= r.value.value <= hi
  {
    var v := FromChars(s, 2, 0, UINT32_MAX);
    if v.Some? && lo <= v.value.value <= hi then v else None
  }

  function ScanYear(s: string): (r: Scan)
    ensures Sane(r.writes)
  {
    var v := FromChars(s, |s|, INT64_MIN, INT64_MAX);
    if v.None? then Fail(s) else Scan(true, NO_WRITES.(Y := Some(v.value.value)), v.value.rest)
  }

  function ScanShortYear(s: string): (r: Scan)
    ensures Sane(r.writes)
  {
    var v := FromChars(s, |s|, 0, UINT32_MAX);
    if v.None? || v.value.value >= 100 then Fail(s)
    else Scan(true, NO_WRITES.(Y := Some(v.value.value + if v.value.value < 69 then 2000 else 1900)), v.value.rest)
  }

  function ScanMonthName(s: string): (r: Scan)
    ensures Sane(r.writes)
  {
    var m := MonthOf(s);
    if m == 0 then Fail(s) else Scan(true, NO_WRITES.(m := Some(m)), EatMonth(m, s))
  }

  /** Seconds are written before the fraction is looked at. */
  function ScanSeconds(s: string): (r: Scan)
    ensures Sane(r.writes)
  {
    var v := Bounded(s, 0, 61);
    if v.None? then Fail(s)
    else
      var w, t := NO_WRITES.(S := Some(v.value.value)), v.value.rest;
      if t == [] || t[0] != '.' then Scan(true, w, t)
      else
        var f := FromChars(t[1..], 9, 0, UINT32_MAX);
        if f.None? then Scan(false, w, t)
        else
          var len := |t[1..]| - |f.value.rest|;
          Scan(true, w.(n := Some(f.value.value * Pow10(9 - len))), f.value.rest)
  }

  predicate IsZone(s: string) {
    && 5 <= |s| && (s[0] == '-' || s[0] == '+')
    && IsDigit(s[1]) && IsDigit(s[2]) && IsDigit(s[4])
    && (if s[3] == ':' then 6 <= |s| && IsDigit(s[5]) else IsDigit(s[3]))
  }

  function ScanZone(s: string): (r: Scan)
    ensures Sane(r.writes)
  {
    if !IsZone(s) then Fail(s)
    else
      var at := if s[3] == ':' then 4 else 3;
      var hours: int := 10 * DigitValue(s[1]) + DigitValue(s[2]);
      var minutes: int := 10 * DigitValue(s[at]) + DigitValue(s[at + 1]);
      var offset := 60 * (60 * hours + minutes);
      Scan(true, NO_WRITES.(z := Some(if s[0] == '-' then -offset else offset)), s[at + 2..])
  }

  /** `%p` is optional: it never fails. */
  function ScanAmPm(s: string): (r: Scan)
    ensures Sane(r.writes)
  {
    if StartsWithNoCase(s, "am") || StartsWithNoCase(s, "pm") then
      Scan(true, NO_WRITES.(p := Some(Some(Lower(s[0]) == 'p'))), s[2..])
    else if StartsWithNoCase(s, "a.m.") || StartsWithNoCase(s, "p.m.") then
      Scan(true, NO_WRITES.(p := Some(Some(Lower(s[0]) == 'p'))), s[4..])
    else Scan(true, NO_WRITES.(p := Some(None)), s)
  }

  /** One or two digits with the field's bounds. */
  function ScanNumber(field: char, s: string): (r: Scan)
    ensures Sane(r.writes)
  {
    var (lo, hi) := Bounds(field);
    var v := Bounded(s, lo, hi);
    if v.None? then Fail(s) else Scan(true, Write(field, v.value.value), v.value.rest)
  }

  function Bounds(field: char): (int, int) {
    match field
    case 'm' => (1, 12)
    case 'd' => (1, 31)
    case 'H' => (0, 23)
    case 'I' => (1, 12)
    case _ => (0, 59)
  }

  /** The field a number goes to. */
  function Write(field: char, value: int): Writes {
    match field
    case 'm' => NO_WRITES.(m := Some(value))
    case 'd' => NO_WRITES.(d := Some(value))
    case 'H' => NO_WRITES.(H := Some(value))
    case 'I' => NO_WRITES.(H := Some(value))
    case _ => NO_WRITES.(M := Some(value))
  }

  const FIELDS: seq<char> := ['Y', 'y', 'm', 'b', 'd', 'H', 'I', 'M', 'S', 'z', 'p']

  /** `updateDateTimeAndStr`. */
  function ScanField(field: char, s: string): (r: Scan)
    requires field in FIELDS
    ensures Sane(r.writes)
  {
    match field
    case 'Y' => ScanYear(s)
    case 'y' => ScanShortYear(s)
    case 'b' => ScanMonthName(s)
    case 'S' => ScanSeconds(s)
    case 'z' => ScanZone(s)
    case 'p' => ScanAmPm(s)
    case _ => ScanNumber(field, s)
  }

  // ---------------------------------------------------------------- one format

  /** Every `%` is followed by a field the parser knows. */
  predicate Known(format: string) {
    forall i | 0 <= i < |format| && format[i] == '%' :: i + 1 < |format| && format[i + 1] in FIELDS
  }

  lemma KnownSuffix(tail: string, format: string)
    requires Known(format) && IsSuffix(tail, format)
    ensures Known(tail)
  {
    var k := |format| - |tail|;
    forall i | 0 <= i < |tail| && tail[i] == '%'
      ensures i + 1 < |tail| && tail[i + 1] in FIELDS
    {
      assert format[k + i] == '%';
    }
  }

  lemma KnownEatSpace(format: string)
    requires Known(format)
    ensures Known(EatSpace(format))
    ensures format != [] && IsSpace(format[0]) ==> |EatSpace(format)| < |format|
  {
    EatSpaceSuffix(format);
    KnownSuffix(EatSpace(format), format);
  }

  /** `parseWithFormat`: what the format accepts, which fields it writes -- also when it fails --
      and what it leaves unread. */
  function ScanFormat(format: string, s: string): (r: Scan)
    requires Known(format)
    ensures Sane(r.writes)
    decreases |format|
  {
    if format == [] then Scan(true, NO_WRITES, s)
    else if format[0] == '%' then
      var f := ScanField(format[1], EatSpace(s));
      if !f.ok then f
      else
        var r := ScanFormat(format[2..], f.rest);
        r.(writes := Then(f.writes, r.writes))
    else if IsSpace(format[0]) then
      KnownEatSpace(format);
      ScanFormat(EatSpace(format), EatSpace(s))
    else if s != [] && format[0] == s[0] then
      ScanFormat(format[1..], s[1..])
    else Fail(s)
  }

  // ---------------------------------------------------------------- a list of formats

  datatype FormatType = DateType | TimeType | ZoneType

  const DATE_FORMATS: seq<string> := ["%Y-%m-%d", "%m/%d/%y", "%m/%d/%Y", "%Y/%m/%d", "%d-%b-%y", "%d/%b/%Y"]
  const TIME_FORMATS: seq<string> :=
    ["%I:%M:%S %p", "%H:%M:%S", "%I:%M %p", "%H:%M", "%H%M%S", "%I . %M . %S %p", "%I %p"]
  const ZONE_FORMATS: seq<string> := ["%z"]

  function Formats(t: FormatType): seq<string> {
    match t
    case DateType => DATE_FORMATS
    case TimeType => TIME_FORMATS
    case ZoneType => ZONE_FORMATS
  }

  predicate AllKnown(formats: seq<string>) {
    forall i | 0 <= i < |formats| :: Known(formats[i])
  }

  /** What trying the formats in order writes in total, failed ones included, and what is left. */
  datatype Tried = Tried(writes: Writes, rest: Option<string>)

  function TryAll(formats: seq<string>, s: string): (r: Tried)
    requires AllKnown(formats)
    ensures Sane(r.writes)
  {
    if formats == [] then Tried(NO_WRITES, None)
    else
      var r := ScanFormat(formats[0], s);
      if r.ok then Tried(r.writes, Some(r.rest))
      else
        var t := TryAll(formats[1..], s);
        t.(writes := Then(r.writes, t.writes))
  }

  /** The pure parser: the first format that matches, and its writes only. */
  function FirstMatch(formats: seq<string>, s: string): (r: Option<Scan>)
    requires AllKnown(formats)
    ensures r.Some? ==> r.value.ok && Sane(r.value.writes)
  {
    if formats == [] then None
    else
      var r := ScanFormat(formats[0], s);
      if r.ok then Some(r) else FirstMatch(formats[1..], s)
  }

  // ---------------------------------------------------------------- the unread text

  lemma ScanFieldSuffix(field: char, s: string)
    requires field in FIELDS && ScanField(field, s).ok
    ensures IsSuffix(ScanField(field, s).rest, s)
  {
    match field
    case 'Y' => FromCharsSuffix(s, |s|, INT64_MIN, INT64_MAX);
    case 'y' => FromCharsSuffix(s, |s|, 0, UINT32_MAX);
    case 'S' => SecondsSuffix(s);
    case 'b' =>
    case 'z' =>
    case 'p' =>
    case _ => FromCharsSuffix(s, 2, 0, UINT32_MAX);
  }

  lemma SecondsSuffix(s: string)
    requires ScanSeconds(s).ok
    ensures IsSuffix(ScanSeconds(s).rest, s)
  {
    FromCharsSuffix(s, 2, 0, UINT32_MAX);
    var t := Bounded(s, 0, 61).value.rest;
    if t != [] && t[0] == '.' {
      FromCharsSuffix(t[1..], 9, 0, UINT32_MAX);
      SuffixTrans(ScanSeconds(s).rest, t[1..], t);
      SuffixTrans(ScanSeconds(s).rest, t, s);
    }
  }

  /** Whatever the format, the unread text is a suffix of the input. */
  lemma {:induction false} ScanFormatSuffix(format: string, s: string)
    requires Known(format) && ScanFormat(format, s).ok
    ensures IsSuffix(ScanFormat(format, s).rest, s)
    decreases |format|
  {
    if format != [] {
      EatSpaceSuffix(s);
      var t := EatSpace(s);
      var r := ScanFormat(format, s).rest;
      if format[0] == '%' {
        var f := ScanField(format[1], t);
        ScanFieldSuffix(format[1], t);
        ScanFormatSuffix(format[2..], f.rest);
        SuffixTrans(r, f.rest, t);
        SuffixTrans(r, t, s);
      } else if IsSpace(format[0]) {
        KnownEatSpace(format);
        ScanFormatSuffix(EatSpace(format), t);
        SuffixTrans(r, t, s);
      } else {
        ScanFormatSuffix(format[1..], s[1..]);
        SuffixTrans(r, s[1..], s);
      }
    }
  }

  lemma {:induction false} UnparsedIsSuffix(formats: seq<string>, s: string)
    requires AllKnown(formats) && TryAll(formats, s).rest.Some?
    ensures IsSuffix(TryAll(formats, s).rest.value, s)
    decreases |formats|
  {
    if ScanFormat(formats[0], s).ok {
      ScanFormatSuffix(formats[0], s);
    } else {
      UnparsedIsSuffix(formats[1..], s);
    }
  }

  lemma DateFormatsKnown()
    ensures AllKnown(DATE_FORMATS)
  {
    assert Known("%Y-%m-%d") && Known("%m/%d/%y") && Known("%m/%d/%Y");
    assert Known("%Y/%m/%d") && Known("%d-%b-%y") && Known("%d/%b/%Y");
  }

  lemma DottedKnown()
    ensures Known("%I . %M . %S %p") && Known("%I %p")
  {
  }

  lemma TimeFormatsKnown()
    ensures AllKnown(TIME_FORMATS)
  {
    assert Known("%I:%M:%S %p") && Known("%H:%M:%S") && Known("%I:%M %p");
    assert Known("%H:%M") && Known("%H%M%S");
    DottedKnown();
  }

  lemma FormatsKnown(t: FormatType)
    ensures AllKnown(Formats(t))
  {
    match t
    case DateType => DateFormatsKnown();
    case TimeType => TimeFormatsKnown();
    case ZoneType =>
  }

  // ---------------------------------------------------------------- the parser object

  class Parser {
    var dt: DateTime
    var formatType: FormatType
    var unparsed: string

    constructor (t: FormatType)
      ensures dt == FRESH && formatType == t && unparsed == []
    {
      dt, formatType, unparsed := FRESH, t, [];
    }

    method SetFormatType(t: FormatType)
      modifies this`dt, this`formatType
      ensures dt == FRESH && formatType == t
    {
      dt := FRESH;
      formatType := t;
    }

    method UpdateYear(s: string) returns (ok: bool, rest: string)
      modifies this`dt
      ensures var r := ScanYear(s); ok == r.ok && (ok ==> rest == r.rest) && dt == Overlay(old(dt), r.writes)
    {
      var year := FromChars(s, |s|, INT64_MIN, INT64_MAX);
      if year.None? {
        return false, s;
      }
      dt := dt.(Y := year.value.value);
      return true, year.value.rest;
    }

    method UpdateShortYear(s: string) returns (ok: bool, rest: string)
      modifies this`dt
      ensures var r := ScanShortYear(s); ok == r.ok && (ok ==> rest == r.rest) && dt == Overlay(old(dt), r.writes)
    {
      var year := FromChars(s, |s|, 0, UINT32_MAX);
      if year.Some? {
        if year.value.value < 69 {
          dt := dt.(Y := 2000 + year.value.value);
          return true, year.value.rest;
        } else if year.value.value < 100 {
          dt := dt.(Y := 1900 + year.value.value);
          return true, year.value.rest;
        }
      }
      return false, s;
    }

    method UpdateMonthName(s: string) returns (ok: bool, rest: string)
      modifies this`dt
      ensures var r := ScanMonthName(s); ok == r.ok && (ok ==> rest == r.rest) && dt == Overlay(old(dt), r.writes)
    {
      var month := MonthOf(s);
      if month == 0 {
        return false, s;
      }
      dt := dt.(m := month);
      return true, EatMonth(month, s);
    }

    method UpdateSeconds(s: string) returns (ok: bool, rest: string)
      modifies this`dt
      ensures var r := ScanSeconds(s); ok == r.ok && (ok ==> rest == r.rest) && dt == Overlay(old(dt), r.writes)
    {
      var second := Bounded(s, 0, 61);
      if second.None? {
        return false, s;
      }
      dt := dt.(S := second.value.value);
      rest := second.value.rest;
      if rest != [] && rest[0] == '.' {
        rest := rest[1..];
        var ns := FromChars(rest, 9, 0, UINT32_MAX);
        if ns.None? {
          return false, rest;
        }
        dt := dt.(n := ns.value.value * Pow10(9 - (|rest| - |ns.value.rest|)));
        rest := ns.value.rest;
      }
      return true, rest;
    }

    method UpdateZone(s: string) returns (ok: bool, rest: string)
      modifies this`dt
      ensures var r := ScanZone(s); ok == r.ok && (ok ==> rest == r.rest) && dt == Overlay(old(dt), r.writes)
    {
      if !IsZone(s) {
        return false, s;
      }
      var sep := if s[3] == ':' then 4 else 3;
      var hours: int := 10 * DigitValue(s[1]) + DigitValue(s[2]);
      var minutes: int := 10 * DigitValue(s[sep]) + DigitValue(s[sep + 1]);
      dt := dt.(z := (if s[0] == '-' then -60 else 60) * (60 * hours + minutes));
      return true, s[sep + 2..];
    }

    method UpdateAmPm(s: string) returns (ok: bool, rest: string)
      modifies this`dt
      ensures var r := ScanAmPm(s); ok == r.ok && (ok ==> rest == r.rest) && dt == Overlay(old(dt), r.writes)
    {
      if StartsWithNoCase(s, "am") || StartsWithNoCase(s, "pm") || StartsWithNoCase(s, "a.m.") || StartsWithNoCase(s, "p.m.") {
        dt := dt.(p := Some(Lower(s[0]) == 'p'));
        return true, s[if Lower(s[1]) == 'm' then 2 else 4..];
      }
      dt := dt.(p := None);
      return true, s;
    }

    method UpdateNumber(field: char, s: string) returns (ok: bool, rest: string)
      modifies this`dt
      ensures var r := ScanNumber(field, s); ok == r.ok && (ok ==> rest == r.rest) && dt == Overlay(old(dt), r.writes)
    {
      var (lo, hi) := Bounds(field);
      var v := Bounded(s, lo, hi);
      if v.None? {
        return false, s;
      }
      dt := Overlay(dt, Write(field, v.value.value));
      return true, v.value.rest;
    }

    method UpdateDateTimeAndStr(field: char, s: string) returns (ok: bool, rest: string)
      requires field in FIELDS
      modifies this`dt
      ensures var r := ScanField(field, s); ok == r.ok && (ok ==> rest == r.rest) && dt == Overlay(old(dt), r.writes)
    {
      match field
      case 'Y' => ok, rest := UpdateYear(s);
      case 'y' => ok, rest := UpdateShortYear(s);
      case 'b' => ok, rest := UpdateMonthName(s);
      case 'S' => ok, rest := UpdateSeconds(s);
      case 'z' => ok, rest := UpdateZone(s);
      case 'p' => ok, rest := UpdateAmPm(s);
      case _ => ok, rest := UpdateNumber(field, s);
    }

    method ParseWithFormat(format: string, s: string) returns (ok: bool, rest: string)
      requires Known(format)
      modifies this`dt
      ensures var r := ScanFormat(format, s); ok == r.ok && (ok ==> rest == r.rest) && dt == Overlay(old(dt), r.writes)
    {
      var f := format;
      rest := s;
      ghost var goal := ScanFormat(format, s);
      while f != []
        invariant Known(f)
        invariant ScanFormat(f, rest).ok == goal.ok && (goal.ok ==> ScanFormat(f, rest).rest == goal.rest)
        invariant Overlay(dt, ScanFormat(f, rest).writes) == Overlay(old(dt), goal.writes)
        decreases |f|
      {
        if f[0] == '%' {
          ghost var before, here := dt, rest;
          rest := EatSpace(rest);
          ok, rest := UpdateDateTimeAndStr(f[1], rest);
          if !ok {
            return false, rest;
          }
          OverlayThen(before, ScanField(f[1], EatSpace(here)).writes, ScanFormat(f[2..], rest).writes);
          f := f[2..];
        } else if IsSpace(f[0]) {
          KnownEatSpace(f);
          f := EatSpace(f);
          rest := EatSpace(rest);
        } else if rest != [] && f[0] == rest[0] {
          f := f[1..];
          rest := rest[1..];
        } else {
          return false, rest;
        }
      }
      return true, rest;
    }

    /** `parse`: tries the formats in order, on one and the same `dt`. */
    method Parse(s: string, dim: nat) returns (r: Option<int>)
      requires dim <= 9 && InRange(dt) && AllKnown(Formats(formatType))
      modifies this`dt, this`unparsed
      ensures formatType == old(formatType)
      ensures InRange(dt) && dt == Overlay(old(dt), TryAll(Formats(formatType), s).writes)
      ensures match TryAll(Formats(formatType), s).rest
              case None => r == None && unparsed == s
              case Some(rest) => r == Some(GetTime(dt, dim)) && unparsed == rest
    {
      var formats := Formats(formatType);
      for i := 0 to |formats|
        invariant InRange(dt)
        invariant TryAll(formats[i..], s).rest == TryAll(formats, s).rest
        invariant Overlay(dt, TryAll(formats[i..], s).writes) == Overlay(old(dt), TryAll(formats, s).writes)
      {
        ghost var before := dt;
        var ok, rest := ParseWithFormat(formats[i], s);
        assert formats[i..][0] == formats[i] && formats[i..][1..] == formats[i + 1..];
        if ok {
          unparsed := rest;
          return Some(GetTime(dt, dim));
        }
        OverlayThen(before, ScanFormat(formats[i], s).writes, TryAll(formats[i + 1..], s).writes);
      }
      unparsed := s;
      return None;
    }
  }
}
