/**
What the stateful parser computes: the first match's writes over what the failed formats left
behind. On dates that is the pure first-match parser.
*/
module DateTimeTheorems {
  import opened Wrappers
  import opened Numerals
  import opened DateTimeFields
  import opened DateTimeParser
  import Calendar
  import IntegerColumns

  // ---------------------------------------------------------------- unfolding a format

  lemma StepField(field: char, tail: string, s: string)
    requires Known(['%', field] + tail)
    ensures field in FIELDS && Known(tail)
    ensures ScanFormat(['%', field] + tail, s) ==
            var f := ScanField(field, EatSpace(s));
            if !f.ok then f else var r := ScanFormat(tail, f.rest); r.(writes := Then(f.writes, r.writes))
  {
    var format := ['%', field] + tail;
    assert format[0] == '%' && format[1] == field && format[2..] == tail;
    KnownSuffix(tail, format);
  }

  lemma StepText(c: char, tail: string, s: string)
    requires c != '%' && !IsSpace(c) && Known([c] + tail)
    ensures Known(tail)
    ensures ScanFormat([c] + tail, s) == if s != [] && s[0] == c then ScanFormat(tail, s[1..]) else Fail(s)
  {
    var format := [c] + tail;
    assert format[1..] == tail;
    KnownSuffix(tail, format);
  }

  lemma StepSpace(tail: string, s: string)
    requires Known([' '] + tail) && (tail != [] ==> !IsSpace(tail[0]))
    ensures Known(tail)
    ensures ScanFormat([' '] + tail, s) == ScanFormat(tail, EatSpace(s))
  {
    var format := [' '] + tail;
    assert format[1..] == tail;
    assert EatSpace(format) == tail;
    KnownSuffix(tail, format);
  }

  // ---------------------------------------------------------------- date formats

  /** Three fields with one separator. */
  function Triple(a: char, b: char, c: char, sep: char): string {
    ['%', a, sep, '%', b, sep, '%', c]
  }

  predicate DateField(c: char) {
    c == 'Y' || c == 'y' || c == 'm' || c == 'b' || c == 'd'
  }

  predicate OnlyDate(w: Writes) {
    w.H.None? && w.M.None? && w.S.None? && w.n.None? && w.z.None? && w.p.None?
  }

  /** The field that `c` stands for is written. */
  predicate Wrote(w: Writes, c: char) {
    match c
    case 'm' => w.m.Some?
    case 'b' => w.m.Some?
    case 'd' => w.d.Some?
    case _ => w.Y.Some?
  }

  lemma DateFieldWrites(c: char, s: string)
    requires DateField(c)
    ensures c in FIELDS && OnlyDate(ScanField(c, s).writes)
    ensures ScanField(c, s).ok ==> Wrote(ScanField(c, s).writes, c)
  {
  }

  /** A format that writes date fields only, and all of `cs` if it matches. */
  ghost predicate Covers(format: string, cs: set<char>) {
    && Known(format)
    && forall s :: OnlyDate(ScanFormat(format, s).writes)
                   && (ScanFormat(format, s).ok ==> forall c | c in cs :: Wrote(ScanFormat(format, s).writes, c))
  }

  lemma KnownField(a: char, tail: string)
    requires a in FIELDS && Known(tail)
    ensures Known(['%', a] + tail)
  {
    var format := ['%', a] + tail;
    forall i | 0 <= i < |format| && format[i] == '%'
      ensures i + 1 < |format| && format[i + 1] in FIELDS
    {
      if i >= 2 {
        assert tail[i - 2] == '%';
      }
    }
  }

  lemma ThenWrites(a: Writes, b: Writes)
    ensures OnlyDate(a) && OnlyDate(b) ==> OnlyDate(Then(a, b))
    ensures forall c :: Wrote(a, c) || Wrote(b, c) ==> Wrote(Then(a, b), c)
  {
  }

  lemma CoversField(a: char, tail: string, cs: set<char>)
    requires DateField(a) && Covers(tail, cs)
    ensures Covers(['%', a] + tail, cs + {a})
  {
    KnownField(a, tail);
    forall s: string
      ensures var r := ScanFormat(['%', a] + tail, s); OnlyDate(r.writes) && (r.ok ==> forall c | c in cs + {a} :: Wrote(r.writes, c))
    {
      var f := ScanField(a, EatSpace(s));
      DateFieldWrites(a, EatSpace(s));
      StepField(a, tail, s);
      if f.ok {
        ThenWrites(f.writes, ScanFormat(tail, f.rest).writes);
      }
    }
  }

  lemma CoversText(sep: char, tail: string, cs: set<char>)
    requires sep != '%' && !IsSpace(sep) && Covers(tail, cs)
    ensures Covers([sep] + tail, cs)
  {
    var format := [sep] + tail;
    forall i | 0 <= i < |format| && format[i] == '%'
      ensures i + 1 < |format| && format[i + 1] in FIELDS
    {
      assert tail[i - 1] == '%';
    }
    forall s: string
      ensures var r := ScanFormat(format, s); OnlyDate(r.writes) && (r.ok ==> forall c | c in cs :: Wrote(r.writes, c))
    {
      StepText(sep, tail, s);
      if s != [] {
        assert OnlyDate(ScanFormat(tail, s[1..]).writes);
      }
    }
  }

  lemma TripleCovers(a: char, b: char, c: char, sep: char)
    requires DateField(a) && DateField(b) && DateField(c) && sep != '%' && !IsSpace(sep)
    ensures Covers(Triple(a, b, c, sep), {a, b, c})
  {
    CoversField(c, [], {});
    CoversText(sep, ['%', c] + [], {} + {c});
    CoversField(b, [sep] + (['%', c] + []), {} + {c});
    CoversText(sep, ['%', b] + ([sep] + (['%', c] + [])), {} + {c} + {b});
    CoversField(a, [sep] + (['%', b] + ([sep] + (['%', c] + []))), {} + {c} + {b});
    assert Triple(a, b, c, sep) == ['%', a] + ([sep] + (['%', b] + ([sep] + (['%', c] + []))));
    assert {a, b, c} == {} + {c} + {b} + {a};
  }

  /** A format that writes the date and nothing else, all of it if it matches. */
  ghost predicate IsDateFormat(format: string) {
    Covers(format, {'Y', 'm', 'd'})
  }

  /** `%y` writes what `%Y` writes, and `%b` what `%m` writes. */
  lemma SameFields(format: string, cs: set<char>)
    requires Covers(format, cs) && 'd' in cs && ('Y' in cs || 'y' in cs) && ('m' in cs || 'b' in cs)
    ensures IsDateFormat(format)
  {
    forall s: string
      ensures var r := ScanFormat(format, s); OnlyDate(r.writes) && (r.ok ==> forall c | c in {'Y', 'm', 'd'} :: Wrote(r.writes, c))
    {
      var r := ScanFormat(format, s);
      assert OnlyDate(r.writes);
      if r.ok {
        assert Wrote(r.writes, 'd');
        assert Wrote(r.writes, if 'Y' in cs then 'Y' else 'y');
        assert Wrote(r.writes, if 'm' in cs then 'm' else 'b');
      }
    }
  }

  lemma TripleIsDate(a: char, b: char, c: char, sep: char)
    requires DateField(a) && DateField(b) && DateField(c) && sep != '%' && !IsSpace(sep)
    requires 'd' in {a, b, c} && ('Y' in {a, b, c} || 'y' in {a, b, c}) && ('m' in {a, b, c} || 'b' in {a, b, c})
    ensures IsDateFormat(Triple(a, b, c, sep))
  {
    TripleCovers(a, b, c, sep);
    SameFields(Triple(a, b, c, sep), {a, b, c});
  }

  lemma DateFormatsAreDates()
    ensures forall i | 0 <= i < |DATE_FORMATS| :: IsDateFormat(DATE_FORMATS[i])
  {
    TripleIsDate('Y', 'm', 'd', '-');
    TripleIsDate('m', 'd', 'y', '/');
    TripleIsDate('m', 'd', 'Y', '/');
    TripleIsDate('Y', 'm', 'd', '/');
    TripleIsDate('d', 'b', 'y', '-');
    TripleIsDate('d', 'b', 'Y', '/');
    assert DATE_FORMATS == [Triple('Y', 'm', 'd', '-'), Triple('m', 'd', 'y', '/'), Triple('m', 'd', 'Y', '/'),
                           Triple('Y', 'm', 'd', '/'), Triple('d', 'b', 'y', '-'), Triple('d', 'b', 'Y', '/')];
  }

  // ---------------------------------------------------------------- failed formats

  /** What the formats before the first match wrote, in total. */
  function Leftover(formats: seq<string>, s: string): Writes
    requires AllKnown(formats)
  {
    if formats == [] then NO_WRITES
    else
      var r := ScanFormat(formats[0], s);
      if r.ok then NO_WRITES else Then(r.writes, Leftover(formats[1..], s))
  }

  lemma ThenAssoc(a: Writes, b: Writes, c: Writes)
    ensures Then(a, Then(b, c)) == Then(Then(a, b), c)
  {
  }

  /** The stateful parser matches what the pure one matches, and leaves the same text unread; its
      fields are the matching format's writes over the failed formats' leftovers. */
  lemma {:induction false} TryAllSplits(formats: seq<string>, s: string)
    requires AllKnown(formats)
    ensures match FirstMatch(formats, s)
            case None => TryAll(formats, s).rest == None
            case Some(r) => r.ok && TryAll(formats, s) == Tried(Then(Leftover(formats, s), r.writes), Some(r.rest))
    decreases |formats|
  {
    if formats != [] {
      var r := ScanFormat(formats[0], s);
      if !r.ok {
        TryAllSplits(formats[1..], s);
        var m := FirstMatch(formats[1..], s);
        if m.Some? {
          ThenAssoc(r.writes, Leftover(formats[1..], s), m.value.writes);
        }
      }
    }
  }

  /** All formats on one text. */
  function Scans(formats: seq<string>, s: string): (rs: seq<Scan>)
    requires AllKnown(formats)
    ensures |rs| == |formats|
  {
    seq(|formats|, k requires 0 <= k < |formats| => ScanFormat(formats[k], s))
  }

  /** What the failed scans before the first success wrote, from scan `k` on. */
  function LeftFrom(rs: seq<Scan>, k: nat): Writes
    requires k <= |rs|
    decreases |rs| - k
  {
    if k == |rs| || rs[k].ok then NO_WRITES else Then(rs[k].writes, LeftFrom(rs, k + 1))
  }

  function FirstFrom(rs: seq<Scan>, k: nat): Option<Scan>
    requires k <= |rs|
    decreases |rs| - k
  {
    if k == |rs| then None else if rs[k].ok then Some(rs[k]) else FirstFrom(rs, k + 1)
  }

  lemma {:induction false} InTurn(formats: seq<string>, s: string, k: nat)
    requires AllKnown(formats) && k <= |formats|
    ensures AllKnown(formats[k..])
    ensures Leftover(formats[k..], s) == LeftFrom(Scans(formats, s), k)
    ensures FirstMatch(formats[k..], s) == FirstFrom(Scans(formats, s), k)
    decreases |formats| - k
  {
    if k < |formats| {
      InTurn(formats, s, k + 1);
      assert formats[k..][1..] == formats[k + 1..];
    }
  }

  lemma {:induction false} DateLeftover(formats: seq<string>, s: string)
    requires AllKnown(formats) && forall i | 0 <= i < |formats| :: IsDateFormat(formats[i])
    ensures OnlyDate(Leftover(formats, s))
    ensures FirstMatch(formats, s).Some? ==>
              var w := FirstMatch(formats, s).value.writes;
              OnlyDate(w) && w.Y.Some? && w.m.Some? && w.d.Some?
    decreases |formats|
  {
    if formats != [] {
      assert IsDateFormat(formats[0]);
      var r := ScanFormat(formats[0], s);
      assert OnlyDate(r.writes);
      assert r.ok ==> Wrote(r.writes, 'Y') && Wrote(r.writes, 'm') && Wrote(r.writes, 'd');
      DateLeftover(formats[1..], s);
    }
  }

  /** The Date parser with its dirty state refines the pure first-match parser: from any `dt_`,
      fields left behind by failed formats never reach the result. */
  lemma DateParserIsPure(x: DateTime, s: string)
    ensures AllKnown(DATE_FORMATS)
    ensures match FirstMatch(DATE_FORMATS, s)
            case None => TryAll(DATE_FORMATS, s).rest == None
            case Some(r) =>
              && TryAll(DATE_FORMATS, s).rest == Some(r.rest)
              && r.writes.Y.Some? && r.writes.m.Some? && r.writes.d.Some?
              && Overlay(x, TryAll(DATE_FORMATS, s).writes) ==
                 x.(Y := r.writes.Y.value, m := r.writes.m.value, d := r.writes.d.value)
  {
    FormatsKnown(DateType);
    DateFormatsAreDates();
    DateLeftover(DATE_FORMATS, s);
    TryAllSplits(DATE_FORMATS, s);
  }

  // ---------------------------------------------------------------- dates in days

  /** The specification of `parseDateInDays`: the day number of the first match. */
  function DateInDays(s: string): Result<int>
    requires AllKnown(DATE_FORMATS)
  {
    var m := FirstMatch(DATE_FORMATS, s);
    if m.None? then Thrown
    else
      var x := Overlay(FRESH, m.value.writes);
      Ok(IntegerColumns.Narrow(Calendar.DaysFromCivil(x.Y, x.m, x.d), 4))
  }

  method ParseDateInDays(s: string) returns (r: Result<int>)
    ensures AllKnown(DATE_FORMATS) && r == DateInDays(s)
  {
    FormatsKnown(DateType);
    var parser := new Parser(DateType);
    var seconds := parser.Parse(s, 0);
    DateParserIsPure(FRESH, s);
    if seconds.None? {
      return Thrown;
    }
    DateSeconds(parser.dt);
    return Ok(IntegerColumns.Narrow(Calendar.TruncDiv(seconds.value, SECS_PER_DAY), 4));
  }

  // ---------------------------------------------------------------- month names

  const MONTH_NAMES: seq<string> :=
    ["january", "february", "march", "april", "may", "june", "july", "august", "september", "october", "november", "december"]

  /** The suffix table is shifted by one: of the full month names, in any case and before any text, only
      November is always eaten whole, and May unless an "e" follows. */
  lemma FullMonthNames(month: nat, name: string, rest: string)
    requires 1 <= month <= 12 && |name| == |MONTH_NAMES[month - 1]| && StartsWithNoCase(name, MONTH_NAMES[month - 1])
    ensures |name| >= 3
    ensures EatMonth(month, name + rest) == rest <==>
            month == 11 || (month == 5 && (rest == [] || Lower(rest[0]) != 'e'))
  {
    var tail, suffix := name[3..], MONTH_SUFFIXES[month];
    assert (name + rest)[3..] == tail + rest;
    if month == 11 {
      NovemberEaten(tail, rest);
    } else if month == 5 {
      assert tail + rest == rest;
    } else {
      OtherTail(month, name);
    }
  }

  lemma NovemberEaten(tail: string, rest: string)
    requires StartsWithNoCase(tail, "ember") && |tail| == 5
    ensures StartsWithNoCase(tail + rest, "ember") && (tail + rest)[5..] == rest
  {
  }

  /** The other names go on with a letter that their suffix does not start with. */
  lemma OtherTail(month: nat, name: string)
    requires 1 <= month <= 12 && month != 5 && month != 11
    requires |name| == |MONTH_NAMES[month - 1]| && StartsWithNoCase(name, MONTH_NAMES[month - 1])
    ensures |name| > 3 && (MONTH_SUFFIXES[month] != [] ==> Lower(name[3]) != MONTH_SUFFIXES[month][0])
  {
    assert Lower(name[3]) == MONTH_NAMES[month - 1][3];
  }
}
