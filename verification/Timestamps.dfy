/**
 The stored timestamp, Go's layout `2006-01-02T15:04:05.000Z`, and its order.

 An instant is a count of nanoseconds since 1970-01-01T00:00:00Z.
 */
module Timestamps {
  import opened Wrappers
  import opened Collation
  import opened Decimal
  import opened Calendar

  type Instant = int

  const NANOS_PER_MILLI := 1_000_000
  const NANOS_PER_SECOND := 1_000_000_000
  const SECONDS_PER_DAY := 86400

  /** The day number of 1970-01-01. */
  const UNIX_DAY := 719162

  /** Go's zero time, 0001-01-01T00:00:00Z, for which `IsZero` answers true. */
  const ZERO_INSTANT: Instant := -UNIX_DAY * SECONDS_PER_DAY * NANOS_PER_SECOND

  /** The milliseconds since the epoch, rounded down as Go's `UnixMilli` does. */
  function Millis(t: Instant): int {
    t / NANOS_PER_MILLI
  }

  function DayOfSecond(second: int): int {
    second / SECONDS_PER_DAY + UNIX_DAY
  }

  function Year(t: Instant): int {
    YearOf(DayOfSecond(t / NANOS_PER_SECOND))
  }

  /** The years for which the layout is as wide as it looks. */
  predicate InLayoutRange(t: Instant) {
    0 <= Year(t) <= 9999
  }

  function DateText(d: Date): string {
    AppendInt(d.year, 4) + "-" + AppendInt(d.month, 2) + "-" + AppendInt(d.day, 2)
  }

  function ClockText(secondOfDay: int): string {
    AppendInt(secondOfDay / 3600, 2) + ":" + AppendInt(secondOfDay / 60 % 60, 2) + ":" + AppendInt(secondOfDay % 60, 2)
  }

  /** The date and time of day of a count of seconds. */
  function SecondText(second: int): string {
    DateText(DateOf(DayOfSecond(second))) + "T" + ClockText(second % SECONDS_PER_DAY)
  }

  /** The elements of Go's reference layout, and literal characters. */
  datatype Element = Year4 | Month2 | Day2 | Hour2 | Minute2 | Second2 | Milli3 | Literal(c: char)

  /** 2006-01-02T15:04:05.000Z, in which the final Z is a literal and no zone. */
  const TIME_LAYOUT: seq<Element> := [
    Year4, Literal('-'), Month2, Literal('-'), Day2, Literal('T'), Hour2, Literal(':'), Minute2, Literal(':'), Second2,
    Literal('.'), Milli3, Literal('Z')]

  /** One element of an instant in UTC; fractions are cut, not rounded. */
  function Piece(element: Element, t: Instant): string {
    var date, clock := DateOf(DayOfSecond(t / NANOS_PER_SECOND)), t / NANOS_PER_SECOND % SECONDS_PER_DAY;
    match element
    case Year4 => AppendInt(date.year, 4)
    case Month2 => AppendInt(date.month, 2)
    case Day2 => AppendInt(date.day, 2)
    case Hour2 => AppendInt(clock / 3600, 2)
    case Minute2 => AppendInt(clock / 60 % 60, 2)
    case Second2 => AppendInt(clock % 60, 2)
    case Milli3 => AppendInt(Millis(t) % 1000, 3)
    case Literal(c) => [c]
  }

  function Format(layout: seq<Element>, t: Instant): string {
    if layout == [] then "" else Piece(layout[0], t) + Format(layout[1..], t)
  }

  /** The store's `formatTime`. */
  function FormatTime(t: Instant): string {
    Format(TIME_LAYOUT, t)
  }

  lemma {:induction false} FormatConcat(a: seq<Element>, b: seq<Element>, t: Instant)
    ensures Format(a + b, t) == Format(a, t) + Format(b, t)
  {
    if a == [] {
      assert a + b == b;
    } else {
      assert (a + b)[1..] == a[1..] + b;
      FormatConcat(a[1..], b, t);
    }
  }

  lemma FormatTwo(x: Element, y: Element, t: Instant)
    ensures Format([x, y], t) == Piece(x, t) + Piece(y, t)
  {
    hide Piece;
    assert [x, y][1..] == [y] && [y][1..] == [];
    assert Format([y], t) == Piece(y, t) + "";
  }

  lemma FormatThree(x: Element, y: Element, z: Element, t: Instant)
    ensures Format([x, y, z], t) == Piece(x, t) + (Piece(y, t) + Piece(z, t))
  {
    hide Piece;
    FormatTwo(y, z, t);
    assert [x, y, z][1..] == [y, z];
  }

  /** Written out, a stored timestamp is its date, its time of day and its milliseconds. */
  lemma FormatTimeIs(t: Instant)
    ensures FormatTime(t) == SecondText(t / NANOS_PER_SECOND) + "." + AppendInt(Millis(t) % 1000, 3) + "Z"
  {
    hide DateOf, AppendInt, Format;
    var a, b, c := [Year4, Literal('-'), Month2], [Literal('-'), Day2, Literal('T')], [Hour2, Literal(':'), Minute2];
    var d, e := [Literal(':'), Second2, Literal('.')], [Milli3, Literal('Z')];
    assert TIME_LAYOUT == a + (b + (c + (d + e)));
    FormatConcat(a, b + (c + (d + e)), t);
    FormatConcat(b, c + (d + e), t);
    FormatConcat(c, d + e, t);
    FormatConcat(d, e, t);
    FormatThree(a[0], a[1], a[2], t);
    FormatThree(b[0], b[1], b[2], t);
    FormatThree(c[0], c[1], c[2], t);
    FormatThree(d[0], d[1], d[2], t);
    FormatTwo(e[0], e[1], t);
    Flatten(Piece(Year4, t), Piece(Month2, t), Piece(Day2, t), Piece(Hour2, t), Piece(Minute2, t), Piece(Second2, t), Piece(Milli3, t));
  }

  lemma Flatten(y: string, m: string, d: string, h: string, n: string, s: string, f: string)
    ensures (y + ("-" + m)) + (("-" + (d + "T")) + ((h + (":" + n)) + ((":" + (s + ".")) + (f + "Z"))))
         == (y + "-" + m + "-" + d) + "T" + (h + ":" + n + ":" + s) + "." + f + "Z"
  {
  }

  // ---------- Order ----------

  lemma Powers()
    ensures Pow10(2) == 100 && Pow10(3) == 1000 && Pow10(4) == 10000
  {
    assert Pow10(1) == 10 * Pow10(0);
    assert Pow10(2) == 10 * Pow10(1);
    assert Pow10(3) == 10 * Pow10(2);
    assert Pow10(4) == 10 * Pow10(3);
  }

  lemma DateFields(d: Date)
    requires IsDate(d)
    ensures AppendInt(d.month, 2) == Fixed(d.month, 2)
    ensures AppendInt(d.day, 2) == Fixed(d.day, 2)
    ensures 0 <= d.year <= 9999 ==> AppendInt(d.year, 4) == Fixed(d.year, 4)
  {
    Powers();
    AppendIntIsFixed(d.month, 2);
    AppendIntIsFixed(d.day, 2);
    if 0 <= d.year <= 9999 {
      AppendIntIsFixed(d.year, 4);
    }
  }

  lemma ClockFields(s: int)
    requires 0 <= s < SECONDS_PER_DAY
    ensures AppendInt(s / 3600, 2) == Fixed(s / 3600, 2)
    ensures AppendInt(s / 60 % 60, 2) == Fixed(s / 60 % 60, 2)
    ensures AppendInt(s % 60, 2) == Fixed(s % 60, 2)
    ensures s == s / 3600 * 3600 + s / 60 % 60 * 60 + s % 60
  {
    Powers();
    ClockSplit(s);
    hide *;
    AppendIntIsFixed(s / 3600, 2);
    AppendIntIsFixed(s / 60 % 60, 2);
    AppendIntIsFixed(s % 60, 2);
  }

  lemma ClockSplit(s: int)
    requires 0 <= s < SECONDS_PER_DAY
    ensures 0 <= s / 3600 < 24 && 0 <= s / 60 % 60 < 60 && 0 <= s % 60 < 60
    ensures s == s / 3600 * 3600 + s / 60 % 60 * 60 + s % 60
  {
    assert s / 60 / 60 == s / 3600;
  }

  /** Two fields joined by a separator compare by the first, then by the second. */
  lemma LessFields(a: string, sep: string, x: string, b: string, y: string)
    requires |a| == |b|
    ensures Less(a + sep + x, b + sep + y) <==> Less(a, b) || (a == b && Less(x, y))
  {
    assert a + sep + x == a + (sep + x) && b + sep + y == b + (sep + y);
    LessConcat(a, sep + x, b, sep + y);
    LessAfterPrefix(sep, x, y);
  }

  lemma DateTextOrder(a: Date, b: Date)
    requires IsDate(a) && IsDate(b) && 0 <= a.year <= 9999 && 0 <= b.year <= 9999
    requires DateLess(a, b)
    ensures Less(DateText(a), DateText(b))
  {
    Powers();
    DateFields(a);
    DateFields(b);
    var ya, yb := Fixed(a.year, 4), Fixed(b.year, 4);
    var ma, mb := Fixed(a.month, 2), Fixed(b.month, 2);
    LessFields(ya + "-" + ma, "-", Fixed(a.day, 2), yb + "-" + mb, Fixed(b.day, 2));
    LessFields(ya, "-", ma, yb, mb);
    if a.year < b.year {
      FixedOrder(a.year, b.year, 4);
    } else if a.month < b.month {
      FixedOrder(a.month, b.month, 2);
    } else {
      FixedOrder(a.day, b.day, 2);
    }
  }

  /** Dividing with remainder turns an order into the order of quotient and remainder. */
  lemma DivModOrder(s: int, t: int, k: int)
    requires s < t && (k == 1000 || k == SECONDS_PER_DAY)
    ensures s / k < t / k || (s / k == t / k && s % k < t % k)
  {
  }

  lemma ClockTextOrder(s: int, t: int)
    requires 0 <= s < t < SECONDS_PER_DAY
    ensures Less(ClockText(s), ClockText(t))
  {
    Powers();
    ClockFields(s);
    ClockFields(t);
    var hs, ht := s / 3600, t / 3600;
    var ms, mt := s / 60 % 60, t / 60 % 60;
    var ss, st := s % 60, t % 60;
    LessFields(Fixed(hs, 2) + ":" + Fixed(ms, 2), ":", Fixed(ss, 2), Fixed(ht, 2) + ":" + Fixed(mt, 2), Fixed(st, 2));
    LessFields(Fixed(hs, 2), ":", Fixed(ms, 2), Fixed(ht, 2), Fixed(mt, 2));
    assert hs < ht || (hs == ht && ms < mt) || (hs == ht && ms == mt && ss < st);
    ClockFieldOrder(hs, ms, ss, ht, mt, st);
  }

  lemma ClockFieldOrder(hs: nat, ms: nat, ss: nat, ht: nat, mt: nat, st: nat)
    requires ht < 100 && mt < 100 && st < 100
    requires hs < ht || (hs == ht && ms < mt) || (hs == ht && ms == mt && ss < st)
    ensures
      || Less(Fixed(hs, 2), Fixed(ht, 2))
      || (hs == ht && Less(Fixed(ms, 2), Fixed(mt, 2)))
      || (hs == ht && ms == mt && Less(Fixed(ss, 2), Fixed(st, 2)))
  {
    Powers();
    if hs < ht {
      FixedOrder(hs, ht, 2);
    } else if ms < mt {
      FixedOrder(ms, mt, 2);
    } else {
      FixedOrder(ss, st, 2);
    }
  }

  predicate SecondInRange(second: int) {
    0 <= YearOf(DayOfSecond(second)) <= 9999
  }

  lemma SecondTextWidth(second: int)
    requires SecondInRange(second)
    ensures |DateText(DateOf(DayOfSecond(second)))| == 10 && |ClockText(second % SECONDS_PER_DAY)| == 8
  {
    DateOfIs(DayOfSecond(second));
    hide DateOf, YearOf;
    DateFields(DateOf(DayOfSecond(second)));
    ClockFields(second % SECONDS_PER_DAY);
  }

  lemma SecondTextOrder(s: int, t: int)
    requires SecondInRange(s) && SecondInRange(t) && s < t
    ensures Less(SecondText(s), SecondText(t))
  {
    SecondTextWidth(s);
    SecondTextWidth(t);
    DivModOrder(s, t, SECONDS_PER_DAY);
    DayTextOrder(DayOfSecond(s), s % SECONDS_PER_DAY, DayOfSecond(t), t % SECONDS_PER_DAY);
  }

  lemma DayTextOrder(m: int, c: int, n: int, d: int)
    requires 0 <= YearOf(m) <= 9999 && 0 <= YearOf(n) <= 9999
    requires |DateText(DateOf(m))| == |DateText(DateOf(n))|
    requires 0 <= c < SECONDS_PER_DAY && 0 <= d < SECONDS_PER_DAY
    requires m < n || (m == n && c < d)
    ensures Less(DateText(DateOf(m)) + "T" + ClockText(c), DateText(DateOf(n)) + "T" + ClockText(d))
  {
    hide DateOf, YearOf;
    DateOfIs(m);
    DateOfIs(n);
    LessFields(DateText(DateOf(m)), "T", ClockText(c), DateText(DateOf(n)), ClockText(d));
    if m < n {
      DateOrder(m, n);
      DateTextOrder(DateOf(m), DateOf(n));
    } else {
      ClockTextOrder(c, d);
    }
  }

  /** Earlier milliseconds are stored as smaller strings. */
  lemma FormatTimeIncreases(s: Instant, t: Instant)
    requires InLayoutRange(s) && InLayoutRange(t) && Millis(s) < Millis(t)
    ensures Less(FormatTime(s), FormatTime(t))
  {
    hide FormatTime, YearOf;
    FormatTimeIs(s);
    FormatTimeIs(t);
    SplitMillis(s);
    SplitMillis(t);
    DivModOrder(Millis(s), Millis(t), 1000);
    MilliTextOrder(s / NANOS_PER_SECOND, Millis(s) % 1000, t / NANOS_PER_SECOND, Millis(t) % 1000);
  }

  lemma MilliTextOrder(i: int, m: int, j: int, n: int)
    requires SecondInRange(i) && SecondInRange(j)
    requires 0 <= m < 1000 && 0 <= n < 1000 && (i < j || (i == j && m < n))
    ensures Less(SecondText(i) + "." + AppendInt(m, 3) + "Z", SecondText(j) + "." + AppendInt(n, 3) + "Z")
  {
    Powers();
    SecondTextWidth(i);
    SecondTextWidth(j);
    AppendIntIsFixed(m, 3);
    AppendIntIsFixed(n, 3);
    var x, y := Fixed(m, 3) + "Z", Fixed(n, 3) + "Z";
    assert SecondText(i) + "." + AppendInt(m, 3) + "Z" == SecondText(i) + "." + x;
    assert SecondText(j) + "." + AppendInt(n, 3) + "Z" == SecondText(j) + "." + y;
    LessFields(SecondText(i), ".", x, SecondText(j), y);
    if i < j {
      SecondTextOrder(i, j);
    } else {
      FixedOrder(m, n, 3);
      LessConcat(Fixed(m, 3), "Z", Fixed(n, 3), "Z");
    }
  }

  lemma SplitMillis(t: Instant)
    ensures Millis(t) / 1000 == t / NANOS_PER_SECOND
    ensures Millis(t) == t / NANOS_PER_SECOND * 1000 + Millis(t) % 1000
  {
  }

  /** Equal milliseconds are stored as the same string, whatever the year. */
  lemma FormatTimeOfMillis(s: Instant, t: Instant)
    requires Millis(s) == Millis(t)
    ensures FormatTime(s) == FormatTime(t)
  {
    hide FormatTime, SecondText;
    FormatTimeIs(s);
    FormatTimeIs(t);
    SplitMillis(s);
    SplitMillis(t);
  }

  /** String order of stored timestamps is time order at millisecond precision. */
  lemma FormatTimeOrder(s: Instant, t: Instant)
    requires InLayoutRange(s) && InLayoutRange(t)
    ensures Less(FormatTime(s), FormatTime(t)) <==> Millis(s) < Millis(t)
    ensures FormatTime(s) == FormatTime(t) <==> Millis(s) == Millis(t)
  {
    LessIsTotal(FormatTime(s), FormatTime(t));
    if Millis(s) < Millis(t) {
      FormatTimeIncreases(s, t);
    } else if Millis(t) < Millis(s) {
      FormatTimeIncreases(t, s);
    } else {
      FormatTimeOfMillis(s, t);
    }
  }

  /** The stored string has its 24 characters exactly for the years 0 to 9999. */
  lemma FormatTimeWidth(t: Instant)
    ensures |FormatTime(t)| == 24 <==> InLayoutRange(t)
  {
    hide FormatTime, DateOf, YearOf;
    FormatTimeIs(t);
    var second := t / NANOS_PER_SECOND;
    var date := DateOf(DayOfSecond(second));
    DateOfIs(DayOfSecond(second));
    Powers();
    DateFields(date);
    ClockFields(second % SECONDS_PER_DAY);
    AppendIntIsFixed(Millis(t) % 1000, 3);
    assert |FormatTime(t)| == |AppendInt(date.year, 4)| + 20;
    YearWidth(date.year);
  }

  lemma YearWidth(year: int)
    ensures if 0 <= year <= 9999 then |AppendInt(year, 4)| == 4 else |AppendInt(year, 4)| > 4
    ensures year < 0 ==> AppendInt(year, 4)[0] == '-'
  {
    Powers();
    PadWidth(if year < 0 then -year else year, 4);
  }

  /** Past the year 9999 the order fails: the first instant of 10000 sorts before the last of 9999. */
  lemma FormatTimeOrderFailsBeyondLayout()
    ensures
      var last, next := 253402300799999 * NANOS_PER_MILLI, 253402300800000 * NANOS_PER_MILLI;
      Millis(last) < Millis(next) && Less(FormatTime(next), FormatTime(last))
  {
    var last, next := 253402300799999 * NANOS_PER_MILLI, 253402300800000 * NANOS_PER_MILLI;
    assert last / NANOS_PER_SECOND == 253402300799 && next / NANOS_PER_SECOND == 253402300800;
    DayNumbers();
    FirstCharacter(last, Date(9999, 12, 31));
    FirstCharacter(next, Date(10000, 1, 1));
    FirstDigits();
    LessByFirst(FormatTime(next), FormatTime(last));
  }

  lemma DayNumbers()
    ensures DayNumber(Date(9999, 12, 31)) == DayOfSecond(253402300799)
    ensures DayNumber(Date(10000, 1, 1)) == DayOfSecond(253402300800)
    ensures IsDate(Date(9999, 12, 31)) && IsDate(Date(10000, 1, 1))
  {
  }

  lemma LessByFirst(a: string, b: string)
    requires a != "" && b != "" && a[0] < b[0]
    ensures Less(a, b)
  {
  }

  lemma FirstCharacter(t: Instant, d: Date)
    requires IsDate(d) && DayNumber(d) == DayOfSecond(t / NANOS_PER_SECOND)
    ensures FormatTime(t) != "" && FormatTime(t)[0] == AppendInt(d.year, 4)[0]
  {
    hide FormatTime, DateOf;
    FormatTimeIs(t);
    DateOfDayNumber(d);
  }

  lemma TenThousand()
    ensures AppendInt(10000, 4) == "10000"
  {
    assert Pad(1, 0) == "1";
    assert Pad(10, 1) == "10";
    assert Pad(100, 2) == "100";
    assert Pad(1000, 3) == "1000";
  }

  lemma FirstDigits()
    ensures AppendInt(9999, 4)[0] == '9' && AppendInt(10000, 4)[0] == '1'
  {
    TenThousand();
    assert Pad(9, 1) == "9";
    assert Pad(99, 2) == "99";
    assert Pad(999, 3) == "999";
  }

  /** A stored timestamp starts with a digit or a minus sign and ends with the literal Z. */
  lemma FormatTimeEnds(t: Instant)
    ensures
      var s := FormatTime(t);
      s != "" && (s[0] == '-' || IsDigit(s[0])) && s[|s| - 1] == 'Z'
  {
    hide FormatTime, DateOf;
    var d := DateOf(DayOfSecond(t / NANOS_PER_SECOND));
    DateOfIs(DayOfSecond(t / NANOS_PER_SECOND));
    FormatTimeIs(t);
    FirstCharacter(t, d);
    AppendIntStart(d.year, 4);
  }

  lemma AppendIntStart(n: int, width: nat)
    ensures AppendInt(n, width) != "" && (AppendInt(n, width)[0] == '-' || IsDigit(AppendInt(n, width)[0]))
  {
    if n >= 0 {
      PadDigits(n, width);
    }
  }

  lemma ZeroYear()
    ensures InLayoutRange(ZERO_INSTANT)
  {
    assert YearOf(0) == 1;
    assert DayOfSecond(ZERO_INSTANT / NANOS_PER_SECOND) == 0;
  }
}
