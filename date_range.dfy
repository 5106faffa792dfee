/** `LogsCog.parse_date_range` (cogs/logs_cog.py): a date "DD.MM" or a range
    "DD.MM-DD.MM" in the current year becomes the first and the last second
    of the days it names. The year is a parameter (the code reads it from the
    clock). */
module DateRange {
  import opened Wrappers
  import opened Text
  import opened Calendar

  datatype DateError =
    /** The `ValueError` naming the date text that did not parse. */
    | BadDate(token: string)
    /** The `ValueError` from unpacking `date_str.split('-')` into two names. */
    | TooManyParts(count: nat)

  datatype Date = Date(year: int, month: int, day: int)

  /** What `%d` matches: 1 to 9, or 01 to 31 on two digits. */
  predicate DayToken(t: string) {
    || (|t| == 1 && '1' <= t[0] <= '9')
    || (|t| == 2 && (
         || (t[0] == '0' && '1' <= t[1] <= '9')
         || ((t[0] == '1' || t[0] == '2') && IsDigit(t[1]))
         || (t[0] == '3' && (t[1] == '0' || t[1] == '1'))))
  }

  /** What `%m` matches: 1 to 9, or 01 to 12 on two digits. */
  predicate MonthToken(t: string) {
    || (|t| == 1 && '1' <= t[0] <= '9')
    || (|t| == 2 && ((t[0] == '0' && '1' <= t[1] <= '9') || (t[0] == '1' && '0' <= t[1] <= '2')))
  }

  /** What `%Y` matches: four digits. */
  predicate YearToken(t: string) {
    |t| == 4 && forall k :: 0 <= k < 4 ==> IsDigit(t[k])
  }

  /** `datetime.strptime(text, '%d.%m.%Y')`: three dot-separated numbers that
      name a date that exists. */
  function ParseDayMonthYear(text: string): (r: Option<Date>)
    ensures r.Some? ==> ValidDate(r.value.year, r.value.month, r.value.day)
  {
    var parts := SplitOn(text, '.');
    if |parts| == 3 && DayToken(parts[0]) && MonthToken(parts[1]) && YearToken(parts[2]) then
      var date := Date(DigitsValue(parts[2]), DigitsValue(parts[1]), DigitsValue(parts[0]));
      if ValidDate(date.year, date.month, date.day) then Some(date) else None
    else None
  }

  lemma {:induction false} ShowYear(year: int)
    requires 1000 <= year <= 9999
    ensures YearToken(ShowInt(year)) && DigitsValue(ShowInt(year)) == year
    ensures '.' !in ShowInt(year)
  {
    ShowNatValue(year);
    var a := year / 10;
    var b := a / 10;
    var c := b / 10;
    assert 100 <= a <= 999 && 10 <= b <= 99 && 1 <= c <= 9;
    assert |ShowNat(c)| == 1;
    assert |ShowNat(b)| == 2;
    assert |ShowNat(a)| == 3;
    var s := ShowNat(year);
    assert |s| == 4;
    assert forall k :: 0 <= k < |s| ==> s[k] != '.';
  }

  /** The inner `parse_date`: the token, stripped, with ".{year}" appended. */
  function ParseDate(token: string, year: int): (r: Option<Date>)
    requires 1000 <= year <= 9999
    ensures r.Some? ==> r.value.year == year && ValidDate(year, r.value.month, r.value.day)
  {
    var text := Strip(token) + "." + ShowInt(year);
    var r := ParseDayMonthYear(text);
    assert r.Some? ==> r.value.year == year by {
      if r.Some? {
        ShowYear(year);
        SplitOnAround(Strip(token), '.', ShowInt(year));
        assert text == Strip(token) + ['.'] + ShowInt(year);
        assert SplitOn(text, '.')[2] == ShowInt(year);
      }
    }
    r
  }

  function Start(d: Date): int
    requires ValidDate(d.year, d.month, d.day)
  {
    Midnight(d.year, d.month, d.day)
  }

  /** The last second of a day: its midnight plus one day minus one second. */
  function LastSecond(d: Date): int
    requires ValidDate(d.year, d.month, d.day)
  {
    Midnight(d.year, d.month, d.day) + MsPerDay - MsPerSecond
  }

  /** `parse_date_range(date_str)`: the instants of the first and the last
      second of the days named (both inclusive). */
  function ParseDateRange(s: string, year: int): (r: Result<(int, int), DateError>)
    requires 1000 <= year <= 9999
    ensures r.Ok? && '-' !in s ==> r.value.1 - r.value.0 == MsPerDay - MsPerSecond
    ensures r.Err? && r.error.BadDate? ==> r.error.token in SplitOn(s, '-')
  {
    if '-' in s then
      var parts := SplitOn(s, '-');
      if |parts| != 2 then Err(TooManyParts(|parts|))
      else
        match ParseDate(parts[0], year)
        case None => Err(BadDate(parts[0]))
        case Some(first) =>
          match ParseDate(parts[1], year)
          case None => Err(BadDate(parts[1]))
          case Some(last) => Ok((Start(first), LastSecond(last)))
    else
      match ParseDate(s, year)
      case None => Err(BadDate(s))
      case Some(day) => Ok((Start(day), LastSecond(day)))
  }

  // ----- what the resolver does with well-formed input --------------------

  /** "DD.MM" as the input placeholder shows it. */
  function DayMonthText(month: int, day: int): string
    requires 1 <= month <= 12 && 1 <= day <= 31
  {
    Pad2(day) + "." + Pad2(month)
  }

  lemma Pad2Value(n: nat)
    requires n < 100
    ensures DigitsValue(Pad2(n)) == n
  {
    var p := Pad2(n);
    assert p[..1] == [p[0]] && [p[0]][..0] == [];
    assert DigitsValue([p[0]]) == n / 10;
    assert DigitsValue(p) == 10 * (n / 10) + n % 10;
  }

  lemma Pad2Tokens(month: int, day: int)
    requires 1 <= month <= 12 && 1 <= day <= 31
    ensures DayToken(Pad2(day)) && MonthToken(Pad2(month))
  {
  }

  lemma DayMonthTextShape(month: int, day: int)
    requires 1 <= month <= 12 && 1 <= day <= 31
    ensures DayMonthText(month, day) == [Pad2(day)[0], Pad2(day)[1], '.', Pad2(month)[0], Pad2(month)[1]]
    ensures '-' !in DayMonthText(month, day) && NoSpace(DayMonthText(month, day))
  {
  }

  lemma DayMonthYearPieces(month: int, day: int, year: int)
    requires 1 <= month <= 12 && 1 <= day <= 31 && 1000 <= year <= 9999
    ensures SplitOn(Strip(DayMonthText(month, day)) + "." + ShowInt(year), '.')
         == [Pad2(day), Pad2(month), ShowInt(year)]
  {
    var dd, mm, yyyy := Pad2(day), Pad2(month), ShowInt(year);
    DayMonthTextShape(month, day);
    ShowYear(year);
    assert dd == [dd[0], dd[1]] && mm == [mm[0], mm[1]];
    assert Strip(DayMonthText(month, day)) == dd + ['.'] + mm;
    assert Strip(DayMonthText(month, day)) + "." + yyyy == dd + ['.'] + mm + ['.'] + yyyy;
    assert '.' !in dd && '.' !in mm;
    ThreePieces(dd, mm, yyyy, '.');
  }

  lemma DayMonthTextParses(year: int, month: int, day: int)
    requires 1000 <= year <= 9999 && ValidDate(year, month, day)
    ensures ParseDate(DayMonthText(month, day), year) == Some(Date(year, month, day))
    ensures '-' !in DayMonthText(month, day)
  {
    DayMonthTextShape(month, day);
    DayMonthYearPieces(month, day, year);
    ShowYear(year);
    Pad2Value(day);
    Pad2Value(month);
    Pad2Tokens(month, day);
  }

  /** How a resolved range is made up: the first second of one parsed date
      and the last second of another. */
  lemma ResolvedDates(s: string, year: int) returns (first: Date, last: Date)
    requires 1000 <= year <= 9999
    requires ParseDateRange(s, year).Ok?
    ensures ValidDate(first.year, first.month, first.day) && ValidDate(last.year, last.month, last.day)
    ensures ParseDateRange(s, year).value == (Start(first), LastSecond(last))
  {
    if '-' in s {
      var parts := SplitOn(s, '-');
      first, last := ParseDate(parts[0], year).value, ParseDate(parts[1], year).value;
    } else {
      first, last := ParseDate(s, year).value, ParseDate(s, year).value;
    }
  }

  /** A `BadDate` error names a text that does not parse: the whole input
      when it has no '-', and otherwise the first of the two pieces that
      fails, the first piece being tried first. */
  lemma DateErrors(s: string, year: int)
    requires 1000 <= year <= 9999
    ensures var r := ParseDateRange(s, year);
      r.Err? && r.error.BadDate? ==> ParseDate(r.error.token, year).None?
    ensures var r := ParseDateRange(s, year);
      r.Err? && r.error.BadDate? && '-' !in s ==> r.error.token == s
    ensures var r := ParseDateRange(s, year);
      r.Err? && r.error.BadDate? && '-' in s ==>
        |SplitOn(s, '-')| == 2 &&
        (r.error.token != SplitOn(s, '-')[0] ==> ParseDate(SplitOn(s, '-')[0], year).Some?)
  {
  }

  /** Two or more '-' fail the unpacking into two dates, whatever the dates:
      `split('-')` gives one piece more than there are dashes. */
  lemma TooManyDashes(s: string, year: int)
    requires 1000 <= year <= 9999
    ensures (ParseDateRange(s, year).Err? && ParseDateRange(s, year).error.TooManyParts?)
        <==> multiset(s)['-'] >= 2
    ensures multiset(s)['-'] >= 2 ==> ParseDateRange(s, year) == Err(TooManyParts(multiset(s)['-'] + 1))
  {
    SplitOnPieces(s, '-');
    assert '-' in s <==> '-' in multiset(s);
  }

  /** A range that resolves comes from pieces that all parse: one date
      without a dash, or exactly one dash between two dates. */
  lemma RangeNeedsBothDates(s: string, year: int)
    requires 1000 <= year <= 9999
    requires ParseDateRange(s, year).Ok?
    ensures '-' !in s ==>
      ParseDate(s, year).Some? &&
      ParseDateRange(s, year).value == (Start(ParseDate(s, year).value), LastSecond(ParseDate(s, year).value))
    ensures '-' in s ==> multiset(s)['-'] == 1 && |SplitOn(s, '-')| == 2
    ensures '-' in s ==>
      var parts := SplitOn(s, '-');
      ParseDate(parts[0], year).Some? && ParseDate(parts[1], year).Some? &&
      ParseDateRange(s, year).value == (Start(ParseDate(parts[0], year).value), LastSecond(ParseDate(parts[1], year).value))
  {
    SplitOnPieces(s, '-');
  }

  lemma SingleParses(s: string, year: int, d: Date)
    requires 1000 <= year <= 9999 && '-' !in s && ParseDate(s, year) == Some(d)
    ensures ParseDateRange(s, year) == Ok((Start(d), LastSecond(d)))
  {
  }

  lemma PairParses(a: string, b: string, year: int, first: Date, last: Date)
    requires 1000 <= year <= 9999 && '-' !in a && '-' !in b
    requires ParseDate(a, year) == Some(first) && ParseDate(b, year) == Some(last)
    ensures ParseDateRange(a + "-" + b, year) == Ok((Start(first), LastSecond(last)))
  {
    assert a + "-" + b == a + ['-'] + b;
    TwoPieces(a, b, '-');
  }

  /** A single "DD.MM" resolves to its local midnight and the last second of
      that day: 86399 seconds apart. */
  lemma SingleDateResolves(year: int, month: int, day: int)
    requires 1000 <= year <= 9999 && ValidDate(year, month, day)
    ensures ParseDateRange(DayMonthText(month, day), year)
         == Ok((Midnight(year, month, day), Midnight(year, month, day) + 86399 * MsPerSecond))
  {
    DayMonthTextParses(year, month, day);
    SingleParses(DayMonthText(month, day), year, Date(year, month, day));
  }

  /** "A-B" resolves to the midnight of A and the last second of B. Nothing
      checks that A comes before B: when B is earlier in the year the
      resolved end lies before the start. */
  lemma RangeResolves(year: int, m1: int, d1: int, m2: int, d2: int)
    requires 1000 <= year <= 9999 && ValidDate(year, m1, d1) && ValidDate(year, m2, d2)
    ensures ParseDateRange(DayMonthText(m1, d1) + "-" + DayMonthText(m2, d2), year)
         == Ok((Midnight(year, m1, d1), Midnight(year, m2, d2) + MsPerDay - MsPerSecond))
    ensures Midnight(year, m1, d1) < Midnight(year, m2, d2) + MsPerDay - MsPerSecond
        <==> !DayMonthBefore(m2, d2, m1, d1)
  {
    var first, last := Date(year, m1, d1), Date(year, m2, d2);
    DayMonthTextParses(year, m1, d1);
    DayMonthTextParses(year, m2, d2);
    PairParses(DayMonthText(m1, d1), DayMonthText(m2, d2), year, first, last);
    MidnightMonotone(year, m2, d2, m1, d1);
    assert DayMonthBefore(m2, d2, m1, d1) <==> Ordinal(year, m2, d2) + 1 <= Ordinal(year, m1, d1);
  }

  /** Whatever the input, a resolved range starts at a local midnight and
      ends one second before a local midnight. */
  lemma ResolvedBoundsAreDayBoundaries(s: string, year: int)
    requires 1000 <= year <= 9999
    requires ParseDateRange(s, year).Ok?
    ensures IsMidnight(ParseDateRange(s, year).value.0)
    ensures IsLastSecond(ParseDateRange(s, year).value.1)
  {
    var first, last := ResolvedDates(s, year);
    DayBounds(first);
    DayBounds(last);
  }

  lemma DayBounds(d: Date)
    requires ValidDate(d.year, d.month, d.day)
    ensures IsMidnight(Start(d)) && IsLastSecond(LastSecond(d))
  {
    var k := Ordinal(d.year, d.month, d.day) - EpochOrdinal;
    WholeDays(k);
    WholeDaysLastSecond(k);
  }

  lemma LeapDayRefused(year: int)
    requires 1000 <= year <= 9999 && !IsLeap(year)
    ensures ParseDate("29.02", year).None?
  {
    assert DayMonthText(2, 29) == "29.02";
    DayMonthYearPieces(2, 29, year);
    ShowYear(year);
    Pad2Value(29);
    Pad2Value(2);
    assert !ValidDate(year, 2, 29);
  }

  /** A day that does not exist in the given year is refused with an error
      naming the text typed: 29 February parses exactly in leap years. */
  lemma LeapDay(year: int)
    requires 1000 <= year <= 9999
    ensures ParseDateRange("29.02", year).Ok? <==> IsLeap(year)
    ensures !IsLeap(year) ==> ParseDateRange("29.02", year) == Err(BadDate("29.02"))
  {
    assert DayMonthText(2, 29) == "29.02";
    if IsLeap(year) {
      DayMonthTextParses(year, 2, 29);
    } else {
      LeapDayRefused(year);
    }
  }
}
