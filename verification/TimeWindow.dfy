/**
 The window `since` and `before` select. Rows are compared as strings, and a
 bound sent with an offset can fall outside the years the layout was made for.
 */
module TimeWindow {
  import opened Wrappers
  import opened Collation
  import opened Decimal
  import opened Calendar
  import opened Timestamps
  import opened Rfc3339
  import opened Observations
  import opened Text
  import opened Server

  /** A stored timestamp is its year and something that starts with a hyphen. */
  lemma YearFirst(t: Instant) returns (rest: string)
    ensures FormatTime(t) == AppendInt(Year(t), 4) + ("-" + rest)
  {
    hide DateOf, AppendInt;
    DateOfIs(DayOfSecond(t / NANOS_PER_SECOND));
    rest := Format(TIME_LAYOUT[2..], t);
    assert TIME_LAYOUT[1..][0] == Literal('-') && TIME_LAYOUT[1..][1..] == TIME_LAYOUT[2..];
    assert Format(TIME_LAYOUT[1..], t) == "-" + rest;
  }

  /** An earlier year means an earlier millisecond. */
  lemma EarlierYear(s: Instant, t: Instant)
    requires Year(s) < Year(t)
    ensures Millis(s) < Millis(t)
  {
    hide DateOf, YearOf;
    SplitMillis(s);
    SplitMillis(t);
    var i, j := DayOfSecond(s / NANOS_PER_SECOND), DayOfSecond(t / NANOS_PER_SECOND);
    if Millis(t) <= Millis(s) {
      assert t / NANOS_PER_SECOND <= s / NANOS_PER_SECOND;
      assert j <= i;
      DateOfIs(i);
      DateOfIs(j);
      if j < i {
        DateOrder(j, i);
      }
    }
  }

  // ---------- Which years a bound can have ----------

  lemma {:induction false} ShiftBelow(n: nat, k: nat, width: nat)
    requires n < Pow10(width)
    ensures Shift(n, k) < Pow10(width + k)
    decreases k
  {
    if k > 0 {
      ShiftBelow(n, k - 1, width);
    }
  }

  lemma FractionBelowSecond(frac: string)
    requires AllDigits(frac)
    ensures FractionNanos(frac) < NANOS_PER_SECOND
  {
    NinePowers();
    if |frac| <= 9 {
      ValueBelow(frac);
      ShiftBelow(Value(frac), 9 - |frac|, |frac|);
    } else {
      ValueBelow(frac[..9]);
    }
  }

  lemma ZoneBounds(z: string)
    requires ParseZone(z).Some?
    ensures -25 * 3600 <= ParseZone(z).value <= 25 * 3600
  {
  }

  /** The local second of a timestamp lies in the years 0 to 9999. */
  lemma LocalYears(s: string)
    requires ParseSecond(s).Some?
    ensures DaysBeforeYear(0) <= DayOfSecond(ParseSecond(s).value) < DaysBeforeYear(10000)
  {
    hide SecondOf, NumberAt, IsDate;
    var d := Date(NumberAt(s, 0, 4).value, NumberAt(s, 5, 2).value, NumberAt(s, 8, 2).value);
    var h, m, c := NumberAt(s, 11, 2).value, NumberAt(s, 14, 2).value, NumberAt(s, 17, 2).value;
    assert IsDate(d) && h < 24 && m < 60 && c < 60 && ParseSecond(s).value == SecondOf(d, h, m, c);
    FourDigitYear(s);
    LocalDay(d, h, m, c);
  }

  lemma LongEnough(s: string)
    requires ParseSecond(s).Some?
    ensures |s| >= 19
  {
  }

  lemma FourDigitYear(s: string)
    requires |s| >= 4 && NumberAt(s, 0, 4).Some?
    ensures NumberAt(s, 0, 4).value <= 9999
  {
    NinePowers();
    ValueBelow(s[0..4]);
  }

  lemma LocalDay(d: Date, h: nat, m: nat, c: nat)
    requires IsDate(d) && 0 <= d.year <= 9999 && h < 24 && m < 60 && c < 60
    ensures DaysBeforeYear(0) <= DayOfSecond(SecondOf(d, h, m, c)) < DaysBeforeYear(10000)
  {
    DayOfYearBound(d);
    DaysBeforeYearIsMonotone(0, d.year);
    DaysBeforeYearIsMonotone(d.year + 1, 10000);
    var time := 3600 * h + 60 * m + c;
    assert 0 <= time < SECONDS_PER_DAY;
    assert ((DayNumber(d) - UNIX_DAY) * SECONDS_PER_DAY + time) / SECONDS_PER_DAY == DayNumber(d) - UNIX_DAY;
  }

  /** Moved to UTC, a timestamp may leave the years it can be written in by one. */
  lemma ParsedYears(s: string, t: Instant)
    requires Parse(s) == Some(t)
    ensures -1 <= Year(t) <= 10000
  {
    hide TwoDigitHour, ParseSecond, ParseZone, ParseFraction, FractionNanos, DateOf;
    var u := TwoDigitHour(s);
    LongEnough(u);
    var second, frac := ParseSecond(u).value, ParseFraction(u[19..]);
    var zone := if frac == "" then u[19..] else u[19..][1 + |frac|..];
    LocalYears(u);
    FractionBelowSecond(frac);
    ZoneBounds(zone);
    var east := ParseZone(zone).value;
    assert t == (second - east) * NANOS_PER_SECOND + FractionNanos(frac);
    assert t / NANOS_PER_SECOND == second - east;
    NeighbouringDays(second, east);
    YearNear(DayOfSecond(second - east));
  }

  lemma NeighbouringDays(second: int, east: int)
    requires -25 * 3600 <= east <= 25 * 3600
    ensures DayOfSecond(second) - 2 <= DayOfSecond(second - east) <= DayOfSecond(second) + 2
  {
  }

  lemma YearNear(n: int)
    requires DaysBeforeYear(0) - 2 <= n <= DaysBeforeYear(10000) + 1
    ensures -1 <= YearOf(n) <= 10000
  {
    var y := YearOf(n);
    YearOfHoldsDay(n);
    hide YearOf;
    if y < -1 {
      DaysBeforeYearIsMonotone(y + 1, -1);
    } else if y > 10000 {
      DaysBeforeYearIsMonotone(10001, y);
    }
  }

  // ---------- Comparing with such a bound ----------

  /** A bound before the year 0 sorts before every row, as it should. */
  lemma EarlyBound(t: Instant, bound: Instant)
    requires InLayoutRange(t) && Year(bound) < 0
    ensures Less(FormatTime(bound), FormatTime(t)) && !Less(FormatTime(t), FormatTime(bound))
  {
    hide FormatTime, DateOf, AppendInt;
    var x := YearFirst(t);
    var y := YearFirst(bound);
    YearWidth(Year(bound));
    AppendIntIsFixedYear(Year(t));
    LessByFirst(FormatTime(bound), FormatTime(t));
    LessIsTotal(FormatTime(bound), FormatTime(t));
  }

  lemma AppendIntIsFixedYear(year: int)
    requires 0 <= year <= 9999
    ensures AppendInt(year, 4) == Fixed(year, 4) && |Fixed(year, 4)| == 4 && '-' < Fixed(year, 4)[0]
  {
    Powers();
    AppendIntIsFixed(year, 4);
    assert IsDigit(Fixed(year, 4)[0]);
  }

  lemma Thousand()
    ensures Fixed(1000, 4) == "1000"
  {
    assert Fixed(1, 1) == "1";
    assert Fixed(10, 2) == "10";
    assert Fixed(100, 3) == "100";
  }

  /** A bound in the year 10000 is written with five digits and sorts among the rows of the year 1000. */
  lemma LateBound(t: Instant, bound: Instant)
    requires InLayoutRange(t) && Year(bound) == 10000
    ensures Less(FormatTime(t), FormatTime(bound)) <==> Year(t) <= 1000
  {
    hide FormatTime, DateOf, AppendInt, Fixed, Less, Pow10;
    var x := YearFirst(t);
    var y := YearFirst(bound);
    var year := Year(t);
    AppendIntIsFixedYear(year);
    AppendIntIsFixedYear(1000);
    TenThousand();
    Thousand();
    assert FormatTime(bound) == Fixed(1000, 4) + ("0" + ("-" + y));
    LessConcat(Fixed(year, 4), "-" + x, Fixed(1000, 4), "0" + ("-" + y));
    LessByFirst("-" + x, "0" + ("-" + y));
    Powers();
    LessIsTotal(Fixed(year, 4), Fixed(1000, 4));
    if year < 1000 {
      FixedOrder(year, 1000, 4);
    } else if year > 1000 {
      FixedOrder(1000, year, 4);
    }
  }

  /** Whether a bound other than "absent" cuts where its instant says. */
  predicate CutsAtInstant(bound: Instant, t: Instant) {
    Year(bound) <= 9999 || Year(t) <= 1000
  }

  /**
   String order against a parsed bound is time order, except for the hours that
   an offset carries into the year 10000: there it is wrong for all rows after
   the year 1000.
   */
  lemma BoundOrder(t: Instant, s: string, bound: Instant)
    requires InLayoutRange(t) && Parse(s) == Some(bound)
    ensures (Less(FormatTime(t), FormatTime(bound)) <==> Millis(t) < Millis(bound)) <==> CutsAtInstant(bound, t)
  {
    hide FormatTime, DateOf, Less, Parse;
    ParsedYears(s, bound);
    if InLayoutRange(bound) {
      FormatTimeOrder(t, bound);
    } else if Year(bound) < 0 {
      EarlyBound(t, bound);
      EarlierYear(bound, t);
    } else {
      LateBound(t, bound);
      EarlierYear(t, bound);
    }
  }

  /** A review that asks for a time window and nothing else. */
  function Window(since: string, before: string, limit: int): ReviewInput {
    ReviewInput("", "", "", since, before, "", limit)
  }

  /**
   `since` selects exactly the rows at or after its instant, at millisecond
   precision, unless that instant falls in the year 10000 or is the one that
   means "absent": then it admits too many rows, and this says which.
   */
  lemma SinceSelects(r: Record, t: Instant, random: seq<bv8>, s: string, since: Instant, limit: int)
    requires StampedAt(r, t, random) && InLayoutRange(t)
    requires TrimSpace(s) != "" && Parse(TrimSpace(s)) == Some(since)
    ensures FilterOf(Window(s, "", limit)).Success?
    ensures
      (Matches(FilterOf(Window(s, "", limit)).value, r) <==> Millis(t) >= Millis(since))
      <==> if since == ZERO_INSTANT then Millis(t) >= Millis(ZERO_INSTANT) else CutsAtInstant(since, t)
  {
    hide FormatTime, DateOf, Less, Parse, TrimSpace, Normal, Year, InLayoutRange;
    BlankIsBlank();
    BoundOrder(t, TrimSpace(s), since);
  }

  /** The same for `before`, which selects the rows strictly earlier than its instant. */
  lemma BeforeSelects(r: Record, t: Instant, random: seq<bv8>, s: string, before: Instant, limit: int)
    requires StampedAt(r, t, random) && InLayoutRange(t)
    requires TrimSpace(s) != "" && Parse(TrimSpace(s)) == Some(before)
    ensures FilterOf(Window("", s, limit)).Success?
    ensures
      (Matches(FilterOf(Window("", s, limit)).value, r) <==> Millis(t) < Millis(before))
      <==> if before == ZERO_INSTANT then Millis(t) < Millis(ZERO_INSTANT) else CutsAtInstant(before, t)
  {
    hide FormatTime, DateOf, Less, Parse, TrimSpace, Normal, Year, InLayoutRange;
    BlankIsBlank();
    BoundOrder(t, TrimSpace(s), before);
  }

  /** Such a bound exists: the last second of 9999, as told one hour west of Greenwich. */
  lemma BoundBeyondLayout()
    ensures
      var s := Spell(253402300799, "", Offset(true, 1, 0));
      Parse(s).Some? && Year(Parse(s).value) == 10000
  {
    hide *;
    NoFraction();
    TenThousandBegins();
    ParseSpelling(253402300799, "", Offset(true, 1, 0));
  }

  lemma TenThousandBegins()
    ensures SecondInRange(253402300799) && IsZone(Offset(true, 1, 0)) && SecondsEast(Offset(true, 1, 0)) == -3600
    ensures Year((253402300799 + 3600) * NANOS_PER_SECOND) == 10000
  {
    hide DateOf, YearOf, DayNumber;
    assert (253402300799 + 3600) * NANOS_PER_SECOND / NANOS_PER_SECOND == 253402304399;
    assert DayOfSecond(253402304399) == DayOfSecond(253402300800);
    DayNumbers();
    DateOfDayNumber(Date(9999, 12, 31));
    DateOfDayNumber(Date(10000, 1, 1));
    DateOfIs(DayOfSecond(253402300799));
    DateOfIs(DayOfSecond(253402300800));
  }

  lemma NoFraction()
    ensures AllDigits("") && FractionNanos("") == 0
  {
    assert Value("") == 0;
    ZeroShifted(9);
  }

  lemma {:induction false} ZeroShifted(k: nat)
    ensures Shift(0, k) == 0
  {
    if k > 0 {
      ZeroShifted(k - 1);
    }
  }
}
