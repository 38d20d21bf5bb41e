/**
What each of the seven time formats makes of a text: an hour, and then minutes and seconds in one of
three notations -- `:MM:SS`, `MMSS` and `. MM . SS`.
*/
module TimeReadings {
  import opened Wrappers
  import opened Numerals
  import opened DateTimeFields
  import opened DateTimeParser
  import opened DateTimeTheorems

  // ---------------------------------------------------------------- readings of a text

  /** One or two digits after spaces. */
  function Number(s: string): Option<Scanned> {
    FromChars(EatSpace(s), 2, 0, UINT32_MAX)
  }

  function Within(s: string, lo: int, hi: int): (r: Option<Scanned>)
    ensures r.Some? ==> lo <= r.value.value <= hi
  {
    Bounded(EatSpace(s), lo, hi)
  }

  predicate At(c: char, s: string) {
    s != [] && s[0] == c
  }

  function After(c: char, s: string): Option<string> {
    if At(c, s) then Some(s[1..]) else None
  }

  /** Minutes and seconds: whether both were read, and what was written of them. */
  datatype Tail = Tail(ok: bool, M: Option<int>, S: Option<int>)

  const UNREAD := Tail(false, None, None)

  function SecondsTail(s: string): Tail {
    var x := ScanSeconds(EatSpace(s));
    Tail(x.ok, None, x.writes.S)
  }

  /** Minutes, and seconds if there is text for them. */
  function MinutesThen(m: Option<Scanned>, seconds: Option<string>): Tail {
    if m.None? then UNREAD
    else if seconds.None? then Tail(false, Some(m.value.value), None)
    else SecondsTail(seconds.value).(M := Some(m.value.value))
  }

  function RestOf(m: Option<Scanned>): string {
    if m.Some? then m.value.rest else []
  }

  /** `:MM:SS`. */
  function ColonTail(s: string): Tail {
    if !At(':', s) then UNREAD
    else
      var m := Within(s[1..], 0, 59);
      MinutesThen(m, After(':', RestOf(m)))
  }

  /** `MMSS`. */
  function SolidTail(s: string): Tail {
    var m := Within(s, 0, 59);
    MinutesThen(m, Some(RestOf(m)))
  }

  /** `. MM . SS`, with spaces anywhere. */
  function DottedTail(s: string): Tail {
    var q := EatSpace(s);
    if !At('.', q) then UNREAD
    else
      var m := Within(q[1..], 0, 59);
      MinutesThen(m, After('.', EatSpace(RestOf(m))))
  }

  // ---------------------------------------------------------------- tails of formats

  /** A scan that reads minutes and seconds as the tail says. */
  predicate Reads(r: Scan, t: Tail) {
    && r.ok == t.ok
    && if r.ok then r.writes.M.Some? && r.writes.S.Some? else r.writes == NO_WRITES.(M := t.M, S := t.S)
  }

  predicate ReadsSeconds(r: Scan, t: Tail) {
    && r.ok == t.ok
    && if r.ok then r.writes.S.Some? else r.writes == NO_WRITES.(S := t.S)
  }

  /** A tail of a format that reads seconds and then cannot fail. */
  ghost predicate SecondsFormat(tail: string) {
    Known(tail) && forall s :: ReadsSeconds(ScanFormat(tail, s), SecondsTail(s))
  }

  lemma SecondsWrites(s: string)
    ensures var x := ScanSeconds(s); if x.ok then x.writes.S.Some? else x.writes == NO_WRITES.(S := x.writes.S)
  {
  }

  lemma PlainSecondsFormat()
    ensures SecondsFormat("%S")
  {
    assert "%S" == ['%', 'S'] + [];
    forall s: string
      ensures ReadsSeconds(ScanFormat("%S", s), SecondsTail(s))
    {
      StepField('S', [], s);
      SecondsWrites(EatSpace(s));
    }
  }

  /** `%p` at the end, after spaces, never fails. */
  lemma HalfOfDay(s: string)
    ensures Known(" %p")
    ensures var r := ScanFormat(" %p", s);
            && r.ok && r.writes.p.Some? && r.writes == NO_WRITES.(p := r.writes.p)
            && (EatSpace(s) != [] && !IsHalf(EatSpace(s)[0]) ==> r.rest == EatSpace(s))
  {
    assert " %p" == [' '] + "%p";
    StepSpace("%p", s);
    EatTwice(s);
    HalfAlone(EatSpace(s));
  }

  lemma HalfAlone(t: string)
    requires EatSpace(t) == t
    ensures Known("%p")
    ensures var r := ScanFormat("%p", t);
            && r.ok && r.writes.p.Some? && r.writes == NO_WRITES.(p := r.writes.p)
            && (t != [] && !IsHalf(t[0]) ==> r.rest == t)
  {
    assert "%p" == ['%', 'p'] + [];
    StepField('p', [], t);
  }

  predicate IsHalf(c: char) {
    Lower(c) == 'a' || Lower(c) == 'p'
  }

  lemma {:induction false} EatTwice(s: string)
    ensures EatSpace(EatSpace(s)) == EatSpace(s)
    ensures EatSpace(s) != [] ==> !IsSpace(EatSpace(s)[0])
    decreases |s|
  {
    if s != [] && IsSpace(s[0]) {
      EatTwice(s[1..]);
    }
  }

  lemma HalfSecondsFormat()
    ensures SecondsFormat("%S %p")
  {
    assert "%S %p" == ['%', 'S'] + " %p";
    forall s: string
      ensures ReadsSeconds(ScanFormat("%S %p", s), SecondsTail(s))
    {
      StepField('S', " %p", s);
      SecondsWrites(EatSpace(s));
      HalfOfDay(ScanSeconds(EatSpace(s)).rest);
    }
  }

  lemma MinutesStep(tail: string, s: string)
    requires Known(['%', 'M'] + tail)
    ensures Known(tail)
    ensures var m := Within(s, 0, 59);
            ScanFormat(['%', 'M'] + tail, s) ==
            if m.None? then Fail(EatSpace(s))
            else var r := ScanFormat(tail, m.value.rest); r.(writes := Then(NO_WRITES.(M := Some(m.value.value)), r.writes))
  {
    StepField('M', tail, s);
  }

  /** Minutes in front of seconds. */
  lemma AddMinutes(r: Scan, t: Tail, m: int)
    requires ReadsSeconds(r, t)
    ensures Reads(r.(writes := Then(NO_WRITES.(M := Some(m)), r.writes)), t.(M := Some(m)))
  {
  }

  lemma ColonReads(tail: string, s: string)
    requires SecondsFormat(tail) && Known([':'] + (['%', 'M'] + ([':'] + tail)))
    ensures Reads(ScanFormat([':'] + (['%', 'M'] + ([':'] + tail)), s), ColonTail(s))
  {
    StepText(':', ['%', 'M'] + ([':'] + tail), s);
    if At(':', s) {
      MinutesStep([':'] + tail, s[1..]);
      var m := Within(s[1..], 0, 59);
      if m.Some? {
        StepText(':', tail, m.value.rest);
        if At(':', m.value.rest) {
          AddMinutes(ScanFormat(tail, m.value.rest[1..]), SecondsTail(m.value.rest[1..]), m.value.value);
        }
      }
    }
  }

  lemma SolidReads(s: string)
    ensures Known("%M%S") && Reads(ScanFormat("%M%S", s), SolidTail(s))
  {
    PlainSecondsFormat();
    assert "%M%S" == ['%', 'M'] + "%S";
    MinutesStep("%S", s);
    var m := Within(s, 0, 59);
    if m.Some? {
      AddMinutes(ScanFormat("%S", m.value.rest), SecondsTail(m.value.rest), m.value.value);
    }
  }

  /** `. %S %p`, after spaces. */
  lemma DottedSeconds(s: string)
    ensures Known(" . %S %p")
    ensures var t := After('.', EatSpace(s));
            ReadsSeconds(ScanFormat(" . %S %p", s), if t.None? then UNREAD else SecondsTail(t.value))
  {
    assert " . %S %p" == [' '] + ". %S %p";
    assert ". %S %p" == ['.'] + " %S %p";
    assert " %S %p" == [' '] + "%S %p";
    StepSpace(". %S %p", s);
    var q := EatSpace(s);
    StepText('.', " %S %p", q);
    HalfSecondsFormat();
    if At('.', q) {
      StepSpace("%S %p", q[1..]);
      EatTwice(q[1..]);
      assert ReadsSeconds(ScanFormat("%S %p", EatSpace(q[1..])), SecondsTail(EatSpace(q[1..])));
    }
  }

  lemma DottedMinutes(s: string)
    ensures Known(" %M . %S %p")
    ensures var m := Within(s, 0, 59);
            Reads(ScanFormat(" %M . %S %p", s), MinutesThen(m, After('.', EatSpace(RestOf(m)))))
  {
    assert " %M . %S %p" == [' '] + "%M . %S %p";
    assert "%M . %S %p" == ['%', 'M'] + " . %S %p";
    StepSpace("%M . %S %p", s);
    EatTwice(s);
    MinutesStep(" . %S %p", EatSpace(s));
    var m := Within(s, 0, 59);
    if m.Some? {
      DottedSeconds(m.value.rest);
      var t := After('.', EatSpace(m.value.rest));
      AddMinutes(ScanFormat(" . %S %p", m.value.rest), if t.None? then UNREAD else SecondsTail(t.value), m.value.value);
    }
  }

  lemma DottedReads(s: string)
    ensures Known(" . %M . %S %p") && Reads(ScanFormat(" . %M . %S %p", s), DottedTail(s))
  {
    assert " . %M . %S %p" == [' '] + ". %M . %S %p";
    assert ". %M . %S %p" == ['.'] + " %M . %S %p";
    StepSpace(". %M . %S %p", s);
    var q := EatSpace(s);
    StepText('.', " %M . %S %p", q);
    if At('.', q) {
      DottedMinutes(q[1..]);
    }
  }

  // ---------------------------------------------------------------- the formats

  predicate Missed(r: Scan) {
    !r.ok && r.writes == NO_WRITES
  }

  /** An hour, and then minutes and seconds as the tail says. */
  predicate ReadsLong(r: Scan, h: Option<Scanned>, t: Tail) {
    if h.None? then Missed(r)
    else
      && r.ok == t.ok
      && if r.ok then r.writes.H.Some? && r.writes.M.Some? && r.writes.S.Some?
         else r.writes == NO_WRITES.(H := Some(h.value.value), M := t.M, S := t.S)
  }

  /** An hour and minutes; an unread colon stays. */
  predicate ReadsShort(r: Scan, h: Option<Scanned>, m: Option<Scanned>) {
    if h.None? then Missed(r)
    else
      && r.ok == m.Some?
      && if r.ok then r.writes.H.Some? && r.writes.M.Some? && r.writes.S.None? && (At(':', m.value.rest) ==> r.rest == m.value.rest)
         else r.writes == NO_WRITES.(H := Some(h.value.value))
  }

  /** An hour alone; what follows stays unless it says am or pm. */
  predicate ReadsHour(r: Scan, h: Option<Scanned>) {
    if h.None? then Missed(r)
    else
      && r.ok && r.writes.H.Some? && r.writes.M.None? && r.writes.S.None?
      && var q := EatSpace(h.value.rest); q != [] && !IsHalf(q[0]) ==> r.rest == q
  }

  function Hour24(s: string): Option<Scanned> {
    Within(s, 0, 23)
  }

  function Hour12(s: string): Option<Scanned> {
    Within(s, 1, 12)
  }

  function HourOf(field: char, s: string): Option<Scanned> {
    if field == 'I' then Hour12(s) else Hour24(s)
  }

  function MinutesOnly(s: string): Option<Scanned> {
    if At(':', s) then Within(s[1..], 0, 59) else None
  }

  lemma HourStep(field: char, tail: string, s: string)
    requires (field == 'H' || field == 'I') && Known(['%', field] + tail)
    ensures Known(tail)
    ensures var h := HourOf(field, s);
            ScanFormat(['%', field] + tail, s) ==
            if h.None? then Fail(EatSpace(s))
            else var r := ScanFormat(tail, h.value.rest); r.(writes := Then(NO_WRITES.(H := Some(h.value.value)), r.writes))
  {
    StepField(field, tail, s);
  }

  lemma LongReads(field: char, tail: string, s: string, t: Tail)
    requires (field == 'H' || field == 'I') && Known(['%', field] + tail) && Known(tail)
    requires HourOf(field, s).Some? ==> Reads(ScanFormat(tail, HourOf(field, s).value.rest), t)
    ensures ReadsLong(ScanFormat(['%', field] + tail, s), HourOf(field, s), t)
  {
    HourStep(field, tail, s);
  }

  lemma Reads0(s: string)
    ensures Known("%I:%M:%S %p") && ReadsLong(ScanFormat("%I:%M:%S %p", s), Hour12(s), ColonTail(RestOf(Hour12(s))))
  {
    assert "%I:%M:%S %p" == ['%', 'I'] + ":%M:%S %p";
    assert ":%M:%S %p" == [':'] + (['%', 'M'] + ([':'] + "%S %p"));
    HalfSecondsFormat();
    ColonReads("%S %p", RestOf(Hour12(s)));
    LongReads('I', ":%M:%S %p", s, ColonTail(RestOf(Hour12(s))));
  }

  lemma Reads1(s: string)
    ensures Known("%H:%M:%S") && ReadsLong(ScanFormat("%H:%M:%S", s), Hour24(s), ColonTail(RestOf(Hour24(s))))
  {
    assert "%H:%M:%S" == ['%', 'H'] + ":%M:%S";
    assert ":%M:%S" == [':'] + (['%', 'M'] + ([':'] + "%S"));
    PlainSecondsFormat();
    ColonReads("%S", RestOf(Hour24(s)));
    LongReads('H', ":%M:%S", s, ColonTail(RestOf(Hour24(s))));
  }

  lemma MinutesHalf(s: string)
    ensures Known("%M %p")
    ensures var r, m := ScanFormat("%M %p", s), Within(s, 0, 59);
            && r.ok == m.Some?
            && if r.ok then r.writes.M.Some? && r.writes.S.None? && (At(':', m.value.rest) ==> r.rest == m.value.rest)
               else r.writes == NO_WRITES
  {
    assert "%M %p" == ['%', 'M'] + " %p";
    MinutesStep(" %p", s);
    var m := Within(s, 0, 59);
    if m.Some? {
      HalfOfDay(m.value.rest);
    }
  }

  lemma ShortHalf(s: string)
    ensures Known(":%M %p")
    ensures var r, m := ScanFormat(":%M %p", s), MinutesOnly(s);
            && r.ok == m.Some?
            && if r.ok then r.writes.M.Some? && r.writes.S.None? && (At(':', m.value.rest) ==> r.rest == m.value.rest)
               else r.writes == NO_WRITES
  {
    assert ":%M %p" == [':'] + "%M %p";
    StepText(':', "%M %p", s);
    if At(':', s) {
      MinutesHalf(s[1..]);
    }
  }

  lemma Reads2(s: string)
    ensures Known("%I:%M %p") && ReadsShort(ScanFormat("%I:%M %p", s), Hour12(s), MinutesOnly(RestOf(Hour12(s))))
  {
    assert "%I:%M %p" == ['%', 'I'] + ":%M %p";
    ShortHalf(RestOf(Hour12(s)));
    HourStep('I', ":%M %p", s);
  }

  lemma ShortPlain(s: string)
    ensures Known(":%M")
    ensures var r, m := ScanFormat(":%M", s), MinutesOnly(s);
            && r.ok == m.Some?
            && if r.ok then r.writes.M.Some? && r.writes.S.None? && r.rest == m.value.rest else r.writes == NO_WRITES
  {
    assert ":%M" == [':'] + "%M";
    assert "%M" == ['%', 'M'] + [];
    StepText(':', "%M", s);
    if At(':', s) {
      MinutesStep([], s[1..]);
    }
  }

  lemma Reads3(s: string)
    ensures Known("%H:%M") && ReadsShort(ScanFormat("%H:%M", s), Hour24(s), MinutesOnly(RestOf(Hour24(s))))
  {
    assert "%H:%M" == ['%', 'H'] + ":%M";
    ShortPlain(RestOf(Hour24(s)));
    HourStep('H', ":%M", s);
  }

  lemma Reads4(s: string)
    ensures Known("%H%M%S") && ReadsLong(ScanFormat("%H%M%S", s), Hour24(s), SolidTail(RestOf(Hour24(s))))
  {
    assert "%H%M%S" == ['%', 'H'] + "%M%S";
    SolidReads(RestOf(Hour24(s)));
    LongReads('H', "%M%S", s, SolidTail(RestOf(Hour24(s))));
  }

  lemma Reads5(s: string)
    ensures Known("%I . %M . %S %p") && ReadsLong(ScanFormat("%I . %M . %S %p", s), Hour12(s), DottedTail(RestOf(Hour12(s))))
  {
    assert "%I . %M . %S %p" == ['%', 'I'] + " . %M . %S %p";
    DottedReads(RestOf(Hour12(s)));
    LongReads('I', " . %M . %S %p", s, DottedTail(RestOf(Hour12(s))));
  }

  lemma Reads6(s: string)
    ensures Known("%I %p") && ReadsHour(ScanFormat("%I %p", s), Hour12(s))
  {
    assert "%I %p" == ['%', 'I'] + " %p";
    HalfOfDay(RestOf(Hour12(s)));
    HourStep('I', " %p", s);
  }

  // ---------------------------------------------------------------- all of them

  /** What the seven formats do on one text. */
  ghost predicate SevenScans(rs: seq<Scan>, s: string) {
    var i, h := Hour12(s), Hour24(s);
    var r := RestOf(h);
    && |rs| == 7
    && ReadsLong(rs[0], i, ColonTail(r)) && ReadsLong(rs[1], h, ColonTail(r))
    && ReadsShort(rs[2], i, MinutesOnly(r)) && ReadsShort(rs[3], h, MinutesOnly(r))
    && ReadsLong(rs[4], h, SolidTail(r)) && ReadsLong(rs[5], i, DottedTail(r)) && ReadsHour(rs[6], i)
  }

  lemma HoursAgree(s: string)
    ensures Hour12(s).Some? ==> Hour24(s) == Hour12(s)
  {
  }

  lemma TimeScans(s: string)
    ensures AllKnown(TIME_FORMATS) && SevenScans(Scans(TIME_FORMATS, s), s)
  {
    TimeFormatsKnown();
    HoursAgree(s);
    Reads0(s);
    Reads1(s);
    Reads2(s);
    Reads3(s);
    Reads4(s);
    Reads5(s);
    Reads6(s);
  }
}
