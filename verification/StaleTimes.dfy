/**
Unlike dates, times are not parsed purely: a failed time format can leave minutes or seconds behind
that the matching one does not write.  Which texts do that, and which entry points show it.
*/
module StaleTimes {
  import opened Wrappers
  import opened Numerals
  import opened DateTimeFields
  import opened DateTimeParser
  import opened DateTimeTheorems
  import opened DateTimeText
  import opened TimeReadings
  import Calendar

  // ---------------------------------------------------------------- the texts

  /** A point that no digit follows. */
  predicate BarePoint(s: string) {
    At('.', s) && !(|s| >= 2 && IsDigit(s[1]))
  }

  /** Seconds up to 61, with digits after the point if there is one. */
  predicate GoodSeconds(s: string) {
    var x := Number(s);
    x.Some? && x.value.value <= 61 && !BarePoint(x.value.rest)
  }

  /** Seconds from 1 to 61 and a bare point. */
  predicate CutSeconds(s: string) {
    var x := Number(s);
    x.Some? && 1 <= x.value.value <= 61 && BarePoint(x.value.rest)
  }

  /** Minutes up to 59 with no good seconds after them, and not both of them zero. */
  predicate CutClock(minutes: string, dotted: bool) {
    var m := Number(minutes);
    && m.Some? && m.value.value <= 59
    && if !dotted then (m.value.value > 0 && !GoodSeconds(m.value.rest)) || CutSeconds(m.value.rest)
       else
         var u := EatSpace(m.value.rest);
         || (m.value.value > 0 && !(At('.', u) && GoodSeconds(u[1..])))
         || (At('.', u) && CutSeconds(u[1..]))
  }

  /** The texts on which a leftover shows: `H:M:S.` with non-zero seconds and no digit after the point, or
      an hour from 1 to 12 followed -- without a colon, and after a point or not -- by a clock that is cut short. */
  predicate StaleTime(s: string) {
    var h := Number(s);
    && h.Some? && h.value.value <= 23
    && var r := h.value.rest;
       if At(':', r) then
         var m := Number(r[1..]);
         m.Some? && m.value.value <= 59 && At(':', m.value.rest) && CutSeconds(m.value.rest[1..])
       else
         var q := EatSpace(r);
         1 <= h.value.value <= 12 && if At('.', q) then CutClock(q[1..], true) else CutClock(q, false)
  }

  // ---------------------------------------------------------------- leftovers, from the text

  /** What a tail that failed leaves behind. */
  function Residue(t: Tail): (int, int) {
    if t.ok then (0, 0) else (Or(t.M, 0), Or(t.S, 0))
  }

  /** Minutes and seconds that reach the result from a failed format. */
  function Extra(s: string): (int, int) {
    var h := Hour24(s);
    var r := RestOf(h);
    if h.None? then (0, 0)
    else if At(':', r) then (0, Residue(ColonTail(r)).1)
    else if Hour12(s).None? || SolidTail(r).ok || DottedTail(r).ok then (0, 0)
    else (Residue(SolidTail(r)).0 + Residue(DottedTail(r)).0, Residue(SolidTail(r)).1 + Residue(DottedTail(r)).1)
  }

  lemma FractionNeedsDigit(t: string)
    ensures FromChars(t, 9, 0, UINT32_MAX).None? <==> t == [] || !IsDigit(t[0])
  {
    var w := if 9 < |t| then t[..9] else t;
    var n := DigitRun(w);
    if n > 0 {
      ValueBound(w[..n]);
      Pow10Monotone(n, 9);
      assert Pow10(9) == 1_000_000_000;
    }
  }

  lemma SecondsText(s: string)
    ensures var t := SecondsTail(s);
            && (t.ok <==> GoodSeconds(s)) && Residue(t).0 == 0 && Residue(t).1 >= 0
            && (Residue(t).1 != 0 <==> CutSeconds(s))
  {
    var x := Number(s);
    if x.Some? && At('.', x.value.rest) {
      FractionNeedsDigit(x.value.rest[1..]);
    }
  }

  /** A text that starts with a point holds no number. */
  lemma PointIsNoNumber(s: string)
    requires At('.', EatSpace(s))
    ensures Number(s).None?
  {
  }

  lemma EatNumber(s: string)
    ensures Number(EatSpace(s)) == Number(s)
  {
    EatTwice(s);
  }

  lemma SolidText(s: string)
    ensures var t := SolidTail(s);
            && Residue(t).0 >= 0 && Residue(t).1 >= 0
            && (Residue(t) != (0, 0) <==> CutClock(s, false))
  {
    var m := Within(s, 0, 59);
    if m.Some? {
      SecondsText(m.value.rest);
    }
  }

  lemma DottedText(s: string)
    ensures var t := DottedTail(s);
            && Residue(t).0 >= 0 && Residue(t).1 >= 0
            && (Residue(t) != (0, 0) <==> At('.', EatSpace(s)) && CutClock(EatSpace(s)[1..], true))
  {
    var q := EatSpace(s);
    if At('.', q) {
      var m := Within(q[1..], 0, 59);
      if m.Some? {
        var u := EatSpace(m.value.rest);
        if At('.', u) {
          SecondsText(u[1..]);
        }
      }
    }
  }

  lemma ColonText(s: string)
    ensures var t := ColonTail(s);
            && Residue(t).1 >= 0
            && (Residue(t).1 != 0 <==>
                At(':', s) && var m := Number(s[1..]);
                m.Some? && m.value.value <= 59 && At(':', m.value.rest) && CutSeconds(m.value.rest[1..]))
  {
    if At(':', s) {
      var m := Within(s[1..], 0, 59);
      if m.Some? && At(':', m.value.rest) {
        SecondsText(m.value.rest[1..]);
      }
    }
  }

  /** Only one of the two notations without a colon starts at all. */
  lemma OneNotation(r: string)
    ensures At('.', EatSpace(r)) ==> SolidTail(r) == UNREAD
    ensures !At('.', EatSpace(r)) ==> DottedTail(r) == UNREAD
  {
    if At('.', EatSpace(r)) {
      PointIsNoNumber(r);
    }
  }

  lemma SolidCut(r: string)
    ensures CutClock(EatSpace(r), false) == CutClock(r, false)
  {
    EatNumber(r);
  }

  lemma ExtraIsStale(s: string)
    ensures Extra(s).0 >= 0 && Extra(s).1 >= 0
    ensures Extra(s) != (0, 0) <==> StaleTime(s)
  {
    var h := Hour24(s);
    if h.Some? {
      var r := h.value.rest;
      ColonText(r);
      SolidText(r);
      DottedText(r);
      OneNotation(r);
      SolidCut(r);
    }
  }

  // ---------------------------------------------------------------- the seven formats in turn

  /** Text that no zone starts with. */
  predicate BlocksZone(s: string) {
    s != [] && !IsSpace(s[0]) && s[0] != '+' && s[0] != '-'
  }

  /** Leftovers touch hour, minutes and seconds only; the hour is overwritten, and of the others exactly
      `extra` shows -- if any does, what is unread is no zone. */
  predicate Shows(left: Writes, first: Option<Scan>, extra: (int, int)) {
    && left == NO_WRITES.(H := left.H, M := left.M, S := left.S)
    && (first.Some? ==>
          var w := first.value.writes;
          && (left.H.Some? ==> w.H.Some?)
          && extra.0 == (if w.M.None? then Or(left.M, 0) else 0)
          && extra.1 == (if w.S.None? then Or(left.S, 0) else 0))
    && (extra != (0, 0) ==> first.Some? && BlocksZone(first.value.rest))
  }

  lemma ColonBlocks(r: string)
    requires At(':', r)
    ensures SolidTail(r) == UNREAD && DottedTail(r) == UNREAD
  {
  }

  /** The last three formats, when the others failed. */
  lemma LastThree(rs: seq<Scan>, s: string)
    requires SevenScans(rs, s) && Hour24(s).Some? && Hour12(s).None?
    ensures LeftFrom(rs, 4) ==
            if rs[4].ok then NO_WRITES
            else NO_WRITES.(H := Some(Hour24(s).value.value), M := SolidTail(RestOf(Hour24(s))).M, S := SolidTail(RestOf(Hour24(s))).S)
    ensures FirstFrom(rs, 4) == if rs[4].ok then Some(rs[4]) else None
  {
    assert LeftFrom(rs, 7) == NO_WRITES && FirstFrom(rs, 7) == None;
    assert LeftFrom(rs, 6) == NO_WRITES && FirstFrom(rs, 6) == None;
    assert LeftFrom(rs, 5) == NO_WRITES && FirstFrom(rs, 5) == None;
  }

  lemma LastThree12(rs: seq<Scan>, s: string)
    requires SevenScans(rs, s) && Hour12(s).Some?
    ensures var h, t, d := Hour12(s).value.value, SolidTail(RestOf(Hour12(s))), DottedTail(RestOf(Hour12(s)));
            && FirstFrom(rs, 4) == Some(if rs[4].ok then rs[4] else if rs[5].ok then rs[5] else rs[6])
            && LeftFrom(rs, 4) ==
               if rs[4].ok then NO_WRITES
               else if rs[5].ok then NO_WRITES.(H := Some(h), M := t.M, S := t.S)
               else NO_WRITES.(H := Some(h), M := OrElse(d.M, t.M), S := OrElse(d.S, t.S))
  {
    HoursAgree(s);
    assert LeftFrom(rs, 6) == NO_WRITES && FirstFrom(rs, 6) == Some(rs[6]);
    assert LeftFrom(rs, 5) == if rs[5].ok then NO_WRITES else Then(rs[5].writes, NO_WRITES);
  }

  /** No colon after the hour: the first four formats leave at most the hour. */
  lemma NoColon(rs: seq<Scan>, s: string)
    requires SevenScans(rs, s) && Hour24(s).Some? && !At(':', RestOf(Hour24(s)))
    ensures FirstFrom(rs, 0) == FirstFrom(rs, 4)
    ensures LeftFrom(rs, 0) == Then(NO_WRITES.(H := Some(Hour24(s).value.value)), LeftFrom(rs, 4))
  {
    HoursAgree(s);
    assert LeftFrom(rs, 3) == Then(rs[3].writes, LeftFrom(rs, 4)) && FirstFrom(rs, 3) == FirstFrom(rs, 4);
    assert LeftFrom(rs, 2) == Then(rs[2].writes, LeftFrom(rs, 3)) && FirstFrom(rs, 2) == FirstFrom(rs, 3);
    assert LeftFrom(rs, 1) == Then(rs[1].writes, LeftFrom(rs, 2)) && FirstFrom(rs, 1) == FirstFrom(rs, 2);
    assert LeftFrom(rs, 0) == Then(rs[0].writes, LeftFrom(rs, 1)) && FirstFrom(rs, 0) == FirstFrom(rs, 1);
  }

  lemma NoColonShows(rs: seq<Scan>, s: string)
    requires SevenScans(rs, s) && Hour24(s).Some? && !At(':', RestOf(Hour24(s)))
    ensures Shows(LeftFrom(rs, 0), FirstFrom(rs, 0), Extra(s))
  {
    var r := RestOf(Hour24(s));
    HoursAgree(s);
    NoColon(rs, s);
    OneNotation(r);
    if Hour12(s).None? {
      LastThree(rs, s);
    } else {
      LastThree12(rs, s);
      LeavesText(r);
    }
  }

  /** What a notation without a colon starts with. */
  lemma LeavesText(r: string)
    ensures Residue(SolidTail(r)) != (0, 0) || Residue(DottedTail(r)) != (0, 0) ==>
              var q := EatSpace(r); q != [] && !IsHalf(q[0]) && BlocksZone(q)
  {
  }

  lemma ColonMinutes(r: string)
    requires At(':', r)
    ensures var c, m := ColonTail(r), MinutesOnly(r);
            && (m.None? ==> c == UNREAD)
            && (m.Some? ==> c.M.Some?)
            && (c.S.Some? ==> m.Some? && At(':', m.value.rest))
  {
  }

  /** A colon after the hour: the first four formats decide, or leave the hour only. */
  lemma Colon(rs: seq<Scan>, s: string)
    requires SevenScans(rs, s) && Hour24(s).Some? && At(':', RestOf(Hour24(s)))
    ensures var h, r := Hour24(s).value.value, RestOf(Hour24(s));
            var c, m, first := ColonTail(r), MinutesOnly(r), FirstFrom(rs, 0);
            if c.ok then LeftFrom(rs, 0) == NO_WRITES && first.Some? && first.value.writes.M.Some? && first.value.writes.S.Some?
            else if m.Some? then
              && LeftFrom(rs, 0) == NO_WRITES.(H := Some(h), M := c.M, S := c.S) && first.Some?
              && first.value.writes.H.Some? && first.value.writes.M.Some? && first.value.writes.S.None?
              && (At(':', m.value.rest) ==> first.value.rest == m.value.rest)
            else first == FirstFrom(rs, 4) && LeftFrom(rs, 0) == Then(NO_WRITES.(H := Some(h)), LeftFrom(rs, 4))
  {
    HoursAgree(s);
    ColonMinutes(RestOf(Hour24(s)));
    assert LeftFrom(rs, 3) == if rs[3].ok then NO_WRITES else Then(rs[3].writes, LeftFrom(rs, 4));
    assert LeftFrom(rs, 2) == if rs[2].ok then NO_WRITES else Then(rs[2].writes, LeftFrom(rs, 3));
    assert LeftFrom(rs, 1) == if rs[1].ok then NO_WRITES else Then(rs[1].writes, LeftFrom(rs, 2));
    assert LeftFrom(rs, 0) == if rs[0].ok then NO_WRITES else Then(rs[0].writes, LeftFrom(rs, 1));
    assert FirstFrom(rs, 3) == if rs[3].ok then Some(rs[3]) else FirstFrom(rs, 4);
    assert FirstFrom(rs, 2) == if rs[2].ok then Some(rs[2]) else FirstFrom(rs, 3);
    assert FirstFrom(rs, 1) == if rs[1].ok then Some(rs[1]) else FirstFrom(rs, 2);
  }

  lemma ColonShows(rs: seq<Scan>, s: string)
    requires SevenScans(rs, s) && Hour24(s).Some? && At(':', RestOf(Hour24(s)))
    ensures Shows(LeftFrom(rs, 0), FirstFrom(rs, 0), Extra(s))
  {
    var r := RestOf(Hour24(s));
    Colon(rs, s);
    ColonMinutes(r);
    ColonBlocks(r);
    HoursAgree(s);
    if Hour12(s).None? {
      LastThree(rs, s);
    } else {
      LastThree12(rs, s);
    }
  }

  lemma {:induction false} AllMissed(rs: seq<Scan>, k: nat)
    requires k <= |rs| && forall i | 0 <= i < |rs| :: Missed(rs[i])
    ensures LeftFrom(rs, k) == NO_WRITES && FirstFrom(rs, k) == None
    decreases |rs| - k
  {
    if k < |rs| {
      AllMissed(rs, k + 1);
    }
  }

  lemma ScansShow(rs: seq<Scan>, s: string)
    requires SevenScans(rs, s)
    ensures Shows(LeftFrom(rs, 0), FirstFrom(rs, 0), Extra(s))
  {
    if Hour24(s).None? {
      HoursAgree(s);
      AllMissed(rs, 0);
    } else if At(':', RestOf(Hour24(s))) {
      ColonShows(rs, s);
    } else {
      NoColonShows(rs, s);
    }
  }

  /** In every case exactly the extra minutes and seconds show. */
  lemma LeftoversShow(s: string)
    ensures AllKnown(TIME_FORMATS)
    ensures Shows(Leftover(TIME_FORMATS, s), FirstMatch(TIME_FORMATS, s), Extra(s))
  {
    TimeScans(s);
    var formats := TIME_FORMATS;
    InTurn(formats, s, 0);
    assert formats[0..] == formats;
    ScansShow(Scans(formats, s), s);
  }

  // ---------------------------------------------------------------- the parser and the pure parser

  /** A pure phase: the first format that matches, on fresh fields. */
  function PurePhase(t: FormatType, s: string, dim: nat): (Option<int>, string)
    requires dim <= 9
  {
    FormatsKnown(t);
    var m := FirstMatch(Formats(t), s);
    if m.None? then (None, s) else (Some(GetTime(Overlay(FRESH, m.value.writes), dim)), m.value.rest)
  }

  function Units(extra: (int, int), dim: nat): int {
    (60 * extra.0 + extra.1) * Pow10(dim)
  }

  /** The stale part of a time, in units of the precision. */
  function StaleUnits(s: string, dim: nat): int {
    Units(Extra(s), dim)
  }

  lemma UnitsZero(extra: (int, int), dim: nat, units: int)
    requires extra.0 >= 0 && extra.1 >= 0 && units == Units(extra, dim)
    ensures units >= 0 && (units == 0 <==> extra == (0, 0))
  {
    Positive(60 * extra.0 + extra.1, Pow10(dim));
  }

  lemma StaleUnitsZero(s: string, dim: nat)
    ensures StaleUnits(s, dim) >= 0
    ensures StaleUnits(s, dim) == 0 <==> !StaleTime(s)
  {
    ExtraIsStale(s);
    UnitsZero(Extra(s), dim, StaleUnits(s, dim));
  }

  lemma Positive(n: int, p: nat)
    requires n >= 0 && p >= 1
    ensures n * p >= 0 && (n * p == 0 <==> n == 0)
  {
  }

  lemma AddClock(x: DateTime, y: DateTime, m: int, n: int, dim: nat)
    requires InRange(x) && dim <= 9 && y == x.(M := x.M + m, S := x.S + n)
    ensures InRange(y) && GetTime(y, dim) == GetTime(x, dim) + (60 * m + n) * Pow10(dim)
  {
    var s, p := 24 * 3600 * Calendar.DaysFromCivil(x.Y, x.m, x.d) + DateTimeFields.Seconds(x), Pow10(dim);
    assert (s + (60 * m + n)) * p == s * p + (60 * m + n) * p;
  }

  lemma OverlayShows(left: Writes, w: Writes, first: Option<Scan>, extra: (int, int))
    requires Shows(left, first, extra) && first.Some? && w == first.value.writes
    ensures var x := Overlay(FRESH, w); Overlay(FRESH, Then(left, w)) == x.(M := x.M + extra.0, S := x.S + extra.1)
  {
  }

  lemma OverlayInRange(w: Writes)
    requires Sane(w)
    ensures InRange(Overlay(FRESH, w))
  {
  }

  /** A time phase: the same text is left as by the pure parser, and the time is later by what is stale;
      if anything is, the text left is no zone. */
  predicate Later(phase: (Option<int>, string), pure: (Option<int>, string), units: int) {
    && phase.1 == pure.1
    && (phase.0.Some? <==> pure.0.Some?)
    && (phase.0.Some? ==> phase.0.value == pure.0.value + units)
    && (units != 0 ==> phase.0.Some? && BlocksZone(phase.1))
  }

  lemma TriedLater(tried: Tried, left: Writes, first: Option<Scan>, extra: (int, int), s: string, dim: nat, units: int)
    requires dim <= 9 && Shows(left, first, extra) && (first.Some? ==> Sane(first.value.writes))
    requires if first.None? then tried.rest == None else tried == Tried(Then(left, first.value.writes), Some(first.value.rest))
    requires units == Units(extra, dim) && (units == 0 <==> extra == (0, 0)) && Sane(tried.writes)
    ensures Later(if tried.rest.None? then (None, s) else (Some(GetTime(Overlay(FRESH, tried.writes), dim)), tried.rest.value),
                  if first.None? then (None, s) else (Some(GetTime(Overlay(FRESH, first.value.writes), dim)), first.value.rest),
                  units)
  {
    if first.Some? {
      var w := first.value.writes;
      OverlayShows(left, w, first, extra);
      OverlayInRange(w);
      AddClock(Overlay(FRESH, w), Overlay(FRESH, tried.writes), extra.0, extra.1, dim);
    }
  }

  lemma TimePhaseLater(s: string, dim: nat)
    requires dim <= 9
    ensures Later(Phase(TimeType, s, dim), PurePhase(TimeType, s, dim), StaleUnits(s, dim))
  {
    LeftoversShow(s);
    TryAllSplits(TIME_FORMATS, s);
    ExtraIsStale(s);
    UnitsZero(Extra(s), dim, StaleUnits(s, dim));
    TriedLater(TryAll(TIME_FORMATS, s), Leftover(TIME_FORMATS, s), FirstMatch(TIME_FORMATS, s), Extra(s), s, dim, StaleUnits(s, dim));
  }

  /** The time parser is the pure first-match parser exactly on the texts that are not stale. */
  lemma TimePureUnlessStale(s: string, dim: nat)
    requires dim <= 9
    ensures Phase(TimeType, s, dim) == PurePhase(TimeType, s, dim) <==> !StaleTime(s)
  {
    TimePhaseLater(s, dim);
    StaleUnitsZero(s, dim);
  }

  lemma DatePhasePure(s: string, dim: nat)
    requires dim <= 9
    ensures Phase(DateType, s, dim) == PurePhase(DateType, s, dim)
  {
    DateParserIsPure(FRESH, s);
    DateFormatsAreDates();
    DateLeftover(DATE_FORMATS, s);
  }

  lemma ZonePhasePure(s: string, dim: nat)
    requires dim <= 9
    ensures Phase(ZoneType, s, dim) == PurePhase(ZoneType, s, dim)
    ensures BlocksZone(s) ==> Phase(ZoneType, s, dim) == (None, s)
  {
    FormatsKnown(ZoneType);
    assert "%z" == ['%', 'z'] + [];
    StepField('z', [], s);
    assert ZONE_FORMATS[1..] == [];
    assert TryAll(ZONE_FORMATS[1..], s) == Tried(NO_WRITES, None) && FirstMatch(ZONE_FORMATS[1..], s) == None;
  }

  // ---------------------------------------------------------------- the three entry points

  /** The specification of `dateTimeParseOptional<kTIME>`: text that is left over is rejected. */
  function TimeOfDay(s: string, dim: nat): Option<int>
    requires dim <= 9
  {
    var (time, zone) := Phase(TimeType, DropFront(s, {'T'}), dim);
    if time.None? then None else ThenZone(time.value, Phase(ZoneType, zone, dim))
  }

  function ThenZone(time: int, zone: (Option<int>, string)): Option<int> {
    if zone.1 != [] then None else Some(time + Or(zone.0, 0))
  }

  function PureTimeOfDay(s: string, dim: nat): Option<int>
    requires dim <= 9
  {
    var (time, zone) := PurePhase(TimeType, DropFront(s, {'T'}), dim);
    if time.None? then None else ThenZone(time.value, PurePhase(ZoneType, zone, dim))
  }

  method RunZone(parser: Parser, time: int, timezone: string, dim: nat) returns (r: Option<int>)
    requires dim <= 9
    modifies parser
    ensures r == ThenZone(time, Phase(ZoneType, timezone, dim))
  {
    var tz, unparsed := RunPhase(parser, ZoneType, timezone, dim);
    if |unparsed| != 0 {
      return None;
    }
    return Some(time + Or(tz, 0));
  }

  method ParseTime(s: string, dim: nat) returns (r: Option<int>)
    requires dim <= 9
    ensures r == TimeOfDay(s, dim)
  {
    var parser := new Parser(TimeType);
    var time, timezone := RunPhase(parser, TimeType, DropFront(s, {'T'}), dim);
    if time.None? {
      return None;
    }
    r := RunZone(parser, time.value, timezone, dim);
  }

  lemma SameThenZone(phase: (Option<int>, string), pure: (Option<int>, string), zone: (Option<int>, string), units: int)
    requires Later(phase, pure, units) && (BlocksZone(phase.1) ==> zone == (None, phase.1))
    ensures phase.0.Some? ==> ThenZone(phase.0.value, zone) == ThenZone(pure.0.value, zone)
  {
  }

  /** Parsing a time is pure for every text: whatever is stale leaves text that is no zone, and that is rejected. */
  lemma TimeOfDayPure(s: string, dim: nat)
    requires dim <= 9
    ensures TimeOfDay(s, dim) == PureTimeOfDay(s, dim)
  {
    var text := DropFront(s, {'T'});
    var phase, pure := Phase(TimeType, text, dim), PurePhase(TimeType, text, dim);
    TimePhaseLater(text, dim);
    ZonePhasePure(phase.1, dim);
    SameThenZone(phase, pure, Phase(ZoneType, phase.1, dim), StaleUnits(text, dim));
  }

  /** A stale time of its own is rejected. */
  lemma StaleIsRejected(s: string, dim: nat)
    requires dim <= 9 && StaleTime(DropFront(s, {'T'}))
    ensures TimeOfDay(s, dim) == None
  {
    var text := DropFront(s, {'T'});
    TimePhaseLater(text, dim);
    StaleUnitsZero(text, dim);
    ZonePhasePure(Phase(TimeType, text, dim).1, dim);
  }

  /** The specification of `dateTimeParseOptional<kTIMESTAMP>` with pure phases. */
  function PureTimestamp(s: string, dim: nat): Option<int>
    requires dim <= 9
  {
    var text := DropFront(s, {'T'});
    var (date, timeOfDay) := PurePhase(DateType, text, dim);
    if date.None? then UnixTime(text) else PureAfterDate(date.value, timeOfDay, dim)
  }

  function PureAfterDate(date: int, timeOfDay: string, dim: nat): Option<int>
    requires dim <= 9
  {
    if |timeOfDay| == 0 then None else WithTime(date, PurePhase(TimeType, DropFront(timeOfDay, {'T', ':'}), dim), dim)
  }

  /** A date, and behind it a time that is stale. */
  predicate StaleTimestamp(s: string) {
    DateFormatsKnown();
    var date := FirstMatch(DATE_FORMATS, DropFront(s, {'T'}));
    date.Some? && date.value.rest != [] && StaleTime(DropFront(date.value.rest, {'T', ':'}))
  }

  lemma WithTimeLater(date: int, a: (Option<int>, string), b: (Option<int>, string), units: int, dim: nat)
    requires dim <= 9 && Later(a, b, units)
    ensures WithTime(date, a, dim).value == WithTime(date, b, dim).value + units
  {
  }

  lemma AfterDateLater(date: int, timeOfDay: string, dim: nat)
    requires dim <= 9 && |timeOfDay| > 0
    ensures var r, pure := AfterDate(date, timeOfDay, dim), PureAfterDate(date, timeOfDay, dim);
            r.Some? && pure.Some? && r.value == pure.value + StaleUnits(DropFront(timeOfDay, {'T', ':'}), dim)
  {
    var text := DropFront(timeOfDay, {'T', ':'});
    TimePhaseLater(text, dim);
    WithTimeLater(date, Phase(TimeType, text, dim), PurePhase(TimeType, text, dim), StaleUnits(text, dim), dim);
  }

  lemma DatePart(text: string, dim: nat)
    requires dim <= 9
    ensures AllKnown(DATE_FORMATS)
    ensures var p, m := PurePhase(DateType, text, dim), FirstMatch(DATE_FORMATS, text);
            if m.None? then p.0.None? else p.0.Some? && p.1 == m.value.rest
  {
    DateFormatsKnown();
  }

  /** Parsing a timestamp is pure exactly on the texts whose time is not stale. */
  lemma TimestampPureUnlessStale(s: string, dim: nat)
    requires dim <= 9
    ensures Timestamp(s, dim) == PureTimestamp(s, dim) <==> !StaleTimestamp(s)
  {
    var text := DropFront(s, {'T'});
    DatePhasePure(text, dim);
    DatePart(text, dim);
    var (date, timeOfDay) := PurePhase(DateType, text, dim);
    if date.Some? && |timeOfDay| > 0 {
      AfterDateLater(date.value, timeOfDay, dim);
      StaleUnitsZero(DropFront(timeOfDay, {'T', ':'}), dim);
    }
  }

  /** The specification of `dateTimeParseOptional<kDATE>`, with stateful and with pure phases. */
  function DateAndZone(s: string, dim: nat): Option<int>
    requires dim <= 9
  {
    var date := Phase(DateType, s, dim);
    WithZone(s, date.0, Phase(ZoneType, date.1, dim))
  }

  function WithZone(s: string, date: Option<int>, zone: (Option<int>, string)): Option<int> {
    if date.None? then UnixTime(s) else Some(date.value + Or(zone.0, 0))
  }

  function PureDateAndZone(s: string, dim: nat): Option<int>
    requires dim <= 9
  {
    var date := PurePhase(DateType, s, dim);
    WithZone(s, date.0, PurePhase(ZoneType, date.1, dim))
  }

  /** Parsing a date is pure for every text. */
  lemma DateAndZonePure(s: string, dim: nat)
    requires dim <= 9
    ensures DateAndZone(s, dim) == PureDateAndZone(s, dim)
  {
    var date := PurePhase(DateType, s, dim);
    DatePhasePure(s, dim);
    ZonePhasePure(date.1, dim);
  }

  method ParseDate(s: string, dim: nat) returns (r: Option<int>)
    requires dim <= 9
    ensures r == DateAndZone(s, dim)
  {
    var parser := new Parser(DateType);
    var date, timezone := RunPhase(parser, DateType, s, dim);
    if date.None? {
      return UnixTime(s);
    }
    var tz, _ := RunPhase(parser, ZoneType, timezone, dim);
    return Some(date.value + Or(tz, 0));
  }

  // ---------------------------------------------------------------- an example

  lemma NumberAt(s: string, v: nat, rest: string)
    requires |s| >= 2 && IsDigit(s[0]) && IsDigit(s[1]) && s[2..] == rest && v == 10 * DigitValue(s[0]) + DigitValue(s[1])
    ensures Number(s) == Some(Scanned(v, rest))
  {
    NoSpace(s);
    var w := if 2 < |s| then s[..2] else s;
    assert w[..2] == w && AllDigits(w);
    DigitRunIs(w, 2);
    assert w[..1][..0] == [] && w[..1] == [s[0]];
    assert Value(w[..1]) == DigitValue(s[0]);
  }

  /** Four digits: an hour from 1 to 12 and minutes from 1. */
  predicate HoursAndMinutes(s: string, h: nat, m: nat) {
    && |s| == 4 && AllDigits(s)
    && h == 10 * DigitValue(s[0]) + DigitValue(s[1]) && m == 10 * DigitValue(s[2]) + DigitValue(s[3])
    && 1 <= h <= 12 && 1 <= m <= 59
  }

  lemma FourDigitsStale(s: string, h: nat, m: nat)
    requires HoursAndMinutes(s, h, m)
    ensures StaleTime(s) && Extra(s) == (m, 0)
  {
    var r := s[2..];
    assert r[0] == s[2] && r[1] == s[3];
    NumberAt(s, h, r);
    NumberAt(r, m, []);
    NoSpace(r);
    assert Number([]) == None;
  }

  lemma FourDigitsUnits(s: string, h: nat, m: nat, dim: nat)
    requires HoursAndMinutes(s, h, m)
    ensures StaleUnits(s, dim) == 60 * m * Pow10(dim)
  {
    FourDigitsStale(s, h, m);
    ExtraMinutes(s, m, dim);
  }

  lemma ExtraMinutes(s: string, m: nat, dim: nat)
    requires Extra(s) == (m, 0)
    ensures StaleUnits(s, dim) == 60 * m * Pow10(dim)
  {
  }

  lemma FourDigitsText(s: string, h: nat, m: nat)
    requires HoursAndMinutes(s, h, m)
    ensures DropFront(s, {'T'}) == s && DropFront([':'] + s, {'T', ':'}) == s
  {
    assert IsDigit(s[0]);
  }

  /** As a time of its own "0506", or any such four digits, is rejected. */
  lemma FourDigitsRejected(s: string, h: nat, m: nat, dim: nat)
    requires dim <= 9 && HoursAndMinutes(s, h, m)
    ensures TimeOfDay(s, dim) == None
  {
    FourDigitsStale(s, h, m);
    FourDigitsText(s, h, m);
    StaleIsRejected(s, dim);
  }

  /** After a date "0506" counts as 05:06, where the pure parser reads 05:00: `%H%M%S` left the minutes
      behind, and the format that matches is the one for an hour alone. */
  lemma MinutesLeftBehind(x: Calendar.Date, s: string, h: nat, m: nat, dim: nat)
    requires dim <= 9 && Calendar.Valid(x) && INT64_MIN <= x.y <= INT64_MAX && HoursAndMinutes(s, h, m)
    ensures var text := DateText(x) + ([':'] + s);
            && PureTimestamp(text, dim).Some? && Timestamp(text, dim).Some?
            && Timestamp(text, dim).value == PureTimestamp(text, dim).value + 60 * m * Pow10(dim)
  {
    var rest := [':'] + s;
    FourDigitsUnits(s, h, m, dim);
    FourDigitsText(s, h, m);
    ReadDate(x, rest);
    FirstChar(x, rest);
    StaleAfterDate(DateText(x) + rest, rest, dim);
  }

  lemma StaleAfterDate(s: string, timeOfDay: string, dim: nat)
    requires dim <= 9 && DropFront(s, {'T'}) == s && AllKnown(DATE_FORMATS) && timeOfDay != []
    requires FirstMatch(DATE_FORMATS, s).Some? && FirstMatch(DATE_FORMATS, s).value.rest == timeOfDay
    ensures PureTimestamp(s, dim).Some? && Timestamp(s, dim).Some?
    ensures Timestamp(s, dim).value == PureTimestamp(s, dim).value + StaleUnits(DropFront(timeOfDay, {'T', ':'}), dim)
  {
    DatePhasePure(s, dim);
    DatePart(s, dim);
    AfterDateLater(PurePhase(DateType, s, dim).0.value, timeOfDay, dim);
  }
}
