/**
 Reading an RFC 3339 timestamp (section 5.6 of RFC 3339) as Go's
 `time.Parse(time.RFC3339, s)` does: any UTC offset, any number of fraction
 digits of which nine count. Go accepts a little more than the standard: an
 hour of one digit, a comma before the fraction, and offsets with 24 hours or
 60 minutes.
 */
module Rfc3339 {
  import opened Wrappers
  import opened Sequences
  import opened Decimal
  import opened Calendar
  import opened Timestamps

  /** The number written in the digits of a field, if they are digits. */
  function NumberAt(s: string, at: nat, width: nat): Option<nat>
    requires at + width <= |s|
  {
    if AllDigits(s[at..at + width]) then Some(Value(s[at..at + width])) else None
  }

  lemma NumberInPlace(s: string, at: nat, width: nat, n: nat)
    requires at + width <= |s| && n < Pow10(width) && s[at..at + width] == Fixed(n, width)
    ensures NumberAt(s, at, width) == Some(n)
  {
    ValueOfFixed(n, width);
  }

  function LeadingDigits(s: string): (n: nat)
    ensures n <= |s| && AllDigits(s[..n])
    ensures n < |s| ==> !IsDigit(s[n])
  {
    if s == "" || !IsDigit(s[0]) then 0 else 1 + LeadingDigits(s[1..])
  }

  /** Nanoseconds of a fraction: digits past the ninth are dropped, missing ones count as zeros. */
  function FractionNanos(frac: string): nat
    requires AllDigits(frac)
  {
    if |frac| <= 9 then Shift(Value(frac), 9 - |frac|) else Value(frac[..9])
  }

  /** n times ten to the k. */
  function Shift(n: nat, k: nat): nat {
    if k == 0 then n else 10 * Shift(n, k - 1)
  }

  predicate Within(n: Option<nat>, bound: nat) {
    n.Some? && n.value < bound
  }

  /** Seconds east of UTC. */
  function ParseZone(z: string): Option<int> {
    if z == "Z" then Some(0)
    else if |z| == 6 && z[0] in "+-" && z[3] == ':' && Within(NumberAt(z, 1, 2), 25) && Within(NumberAt(z, 4, 2), 61) then
      var east := 3600 * NumberAt(z, 1, 2).value + 60 * NumberAt(z, 4, 2).value;
      Some(if z[0] == '-' then -east else east)
    else None
  }

  /** The seconds since the epoch, in local time, of the date and time of day that open the text. */
  function ParseSecond(s: string): Option<int> {
    if |s| < 19 then None else
      match (NumberAt(s, 0, 4), NumberAt(s, 5, 2), NumberAt(s, 8, 2))
      case (Some(year), Some(month), Some(day)) =>
        var hour, minute, second := NumberAt(s, 11, 2), NumberAt(s, 14, 2), NumberAt(s, 17, 2);
        if && s[4] == s[7] == '-' && s[10] == 'T' && s[13] == s[16] == ':'
           && IsDate(Date(year, month, day)) && Within(hour, 24) && Within(minute, 60) && Within(second, 60)
        then Some(SecondOf(Date(year, month, day), hour.value, minute.value, second.value))
        else None
      case _ => None
  }

  function SecondOf(d: Date, hour: nat, minute: nat, second: nat): int
    requires IsDate(d)
  {
    (DayNumber(d) - UNIX_DAY) * SECONDS_PER_DAY + 3600 * hour + 60 * minute + second
  }

  /** The digits of a fraction that starts the text, without its point or comma. */
  function ParseFraction(rest: string): (frac: string)
    ensures AllDigits(frac)
    ensures frac != "" ==> 1 + |frac| <= |rest|
  {
    if |rest| >= 2 && rest[0] in ".," && IsDigit(rest[1]) then rest[1..][..LeadingDigits(rest[1..])] else ""
  }

  /** The text with its hour in two digits. */
  function TwoDigitHour(s: string): string {
    if |s| >= 13 && IsDigit(s[11]) && s[12] == ':' then s[..11] + "0" + s[11..] else s
  }

  function Parse(s: string): Option<Instant> {
    ParsePadded(TwoDigitHour(s))
  }

  function ParsePadded(s: string): Option<Instant> {
    match ParseSecond(s)
    case None => None
    case Some(second) =>
      var frac := ParseFraction(s[19..]);
      match ParseZone(if frac == "" then s[19..] else s[19..][1 + |frac|..])
      case None => None
      case Some(east) => Some((second - east) * NANOS_PER_SECOND + FractionNanos(frac))
  }

  // ---------- Spellings ----------

  datatype Zone = Utc | Offset(west: bool, hours: nat, minutes: nat)

  predicate IsZone(z: Zone) {
    z.Offset? ==> z.hours <= 24 && z.minutes <= 60
  }

  function SecondsEast(z: Zone): int {
    match z
    case Utc => 0
    case Offset(west, hours, minutes) => if west then -(3600 * hours + 60 * minutes) else 3600 * hours + 60 * minutes
  }

  function ZoneText(z: Zone): string {
    match z
    case Utc => "Z"
    case Offset(west, hours, minutes) => (if west then "-" else "+") + Fixed(hours, 2) + ":" + Fixed(minutes, 2)
  }

  /** The text of a local time with a fraction of any length and a zone. */
  function Spell(local: int, frac: string, zone: Zone): string {
    SecondText(local) + (if frac == "" then "" else "." + frac) + ZoneText(zone)
  }

  /** Where the fields stand in a text laid out like a date and time. */
  lemma FieldsInPlace(y: string, m: string, d: string, h: string, n: string, c: string, rest: string, s: string)
    requires |y| == 4 && |m| == |d| == |h| == |n| == |c| == 2
    requires s == y + "-" + m + "-" + d + "T" + (h + ":" + n + ":" + c) + rest
    ensures |s| >= 19 && s[19..] == rest
    ensures s[0..4] == y && s[4] == '-' && s[5..7] == m && s[7] == '-' && s[8..10] == d && s[10] == 'T'
    ensures s[11..13] == h && s[13] == ':' && s[14..16] == n && s[16] == ':' && s[17..19] == c
  {
    var date, clock := y + "-" + m + "-" + d + "T", h + ":" + n + ":" + c;
    assert s == date + clock + rest;
    DateInPlace(y, m, d, date);
    ClockInPlace(h, n, c, clock);
    assert forall i :: 0 <= i < 11 ==> s[i] == date[i];
    assert forall i :: 11 <= i < 19 ==> s[i] == clock[i - 11];
    assert s[0..4] == date[0..4] && s[5..7] == date[5..7] && s[8..10] == date[8..10];
    assert s[11..13] == clock[0..2] && s[14..16] == clock[3..5] && s[17..19] == clock[6..8];
  }

  lemma DateInPlace(y: string, m: string, d: string, s: string)
    requires |y| == 4 && |m| == |d| == 2 && s == y + "-" + m + "-" + d + "T"
    ensures |s| == 11 && s[4] == s[7] == '-' && s[10] == 'T'
    ensures s[0..4] == y && s[5..7] == m && s[8..10] == d
  {
  }

  lemma ClockInPlace(h: string, n: string, c: string, s: string)
    requires |h| == |n| == |c| == 2 && s == h + ":" + n + ":" + c
    ensures |s| == 8 && s[2] == s[5] == ':'
    ensures s[0..2] == h && s[3..5] == n && s[6..8] == c
  {
  }

  lemma DateBounds(d: Date)
    requires IsDate(d)
    ensures 1 <= d.month <= 12 && 1 <= d.day <= 31
  {
  }

  lemma ParseFields(d: Date, h: nat, n: nat, c: nat, rest: string, s: string)
    requires IsDate(d) && 0 <= d.year <= 9999 && h < 24 && n < 60 && c < 60
    requires s == Fixed(d.year, 4) + "-" + Fixed(d.month, 2) + "-" + Fixed(d.day, 2)
                  + "T" + (Fixed(h, 2) + ":" + Fixed(n, 2) + ":" + Fixed(c, 2)) + rest
    ensures |s| >= 19 && s[19..] == rest
    ensures ParseSecond(s) == Some(SecondOf(d, h, n, c))
  {
    hide SecondOf, NumberAt, Fixed, IsDate, Pow10;
    Powers();
    DateBounds(d);
    FieldsInPlace(Fixed(d.year, 4), Fixed(d.month, 2), Fixed(d.day, 2), Fixed(h, 2), Fixed(n, 2), Fixed(c, 2), rest, s);
    NumberInPlace(s, 0, 4, d.year);
    NumberInPlace(s, 5, 2, d.month);
    NumberInPlace(s, 8, 2, d.day);
    NumberInPlace(s, 11, 2, h);
    NumberInPlace(s, 14, 2, n);
    NumberInPlace(s, 17, 2, c);
  }

  lemma ParseSecondText(second: int, rest: string)
    requires SecondInRange(second)
    ensures
      var s := SecondText(second) + rest;
      ParseSecond(s) == Some(second) && |s| >= 19 && s[19..] == rest
  {
    hide DateOf, YearOf, ParseSecond;
    var d, c := DateOf(DayOfSecond(second)), second % SECONDS_PER_DAY;
    DateOfIs(DayOfSecond(second));
    DateFields(d);
    ClockFields(c);
    ParseFields(d, c / 3600, c / 60 % 60, c % 60, rest, SecondText(second) + rest);
    SecondOfParts(second);
  }

  lemma SecondOfParts(second: int)
    ensures
      var c := second % SECONDS_PER_DAY;
      IsDate(DateOf(DayOfSecond(second))) && SecondOf(DateOf(DayOfSecond(second)), c / 3600, c / 60 % 60, c % 60) == second
  {
    hide DateOf, DayNumber;
    DateOfIs(DayOfSecond(second));
    ClockFields(second % SECONDS_PER_DAY);
  }

  lemma ParseZoneText(z: Zone)
    requires IsZone(z)
    ensures ParseZone(ZoneText(z)) == Some(SecondsEast(z))
    ensures ZoneText(z) != "" && ZoneText(z)[0] in "Z+-"
  {
    if z.Offset? {
      var s := ZoneText(z);
      Powers();
      assert s[1..3] == Fixed(z.hours, 2) && s[4..6] == Fixed(z.minutes, 2);
      NumberInPlace(s, 1, 2, z.hours);
      NumberInPlace(s, 4, 2, z.minutes);
    }
  }

  lemma {:induction false} LeadingDigitsStop(digits: string, rest: string)
    requires AllDigits(digits) && (rest == "" || !IsDigit(rest[0]))
    ensures LeadingDigits(digits + rest) == |digits|
  {
    if digits == "" {
      assert digits + rest == rest;
    } else {
      assert (digits + rest)[1..] == digits[1..] + rest;
      LeadingDigitsStop(digits[1..], rest);
    }
  }

  lemma ParseFractionText(frac: string, zone: string)
    requires AllDigits(frac) && zone != "" && zone[0] in "Z+-"
    ensures ParseFraction((if frac == "" then "" else "." + frac) + zone) == frac
  {
    if frac == "" {
      assert "" + zone == zone;
    } else {
      var rest := "." + frac + zone;
      assert rest[1..] == frac + zone;
      LeadingDigitsStop(frac, zone);
      assert (frac + zone)[..|frac|] == frac;
    }
  }

  lemma HourHasTwoDigits(s: string)
    requires ParseSecond(s).Some?
    ensures TwoDigitHour(s) == s
  {
    assert s[11..13][1] == s[12];
  }

  lemma ParseParts(s: string, second: int, frac: string, zone: Zone)
    requires ParseSecond(s) == Some(second) && AllDigits(frac) && IsZone(zone)
    requires |s| >= 19 && s[19..] == (if frac == "" then "" else "." + frac) + ZoneText(zone)
    ensures Parse(s) == Some((second - SecondsEast(zone)) * NANOS_PER_SECOND + FractionNanos(frac))
  {
    hide TwoDigitHour, ParseSecond, ZoneText, ParseZone, ParseFraction, FractionNanos, SecondsEast, IsZone, AllDigits, IsDigit;
    HourHasTwoDigits(s);
    ParseZoneText(zone);
    ParseFractionText(frac, ZoneText(zone));
    PointSplits(frac, ZoneText(zone));
  }

  lemma PointSplits(frac: string, zone: string)
    ensures "" + zone == zone && ("." + frac + zone)[1 + |frac|..] == zone
  {
  }

  /** Every spelling of a time is read as the instant it names. */
  lemma ParseSpelling(local: int, frac: string, zone: Zone)
    requires SecondInRange(local) && AllDigits(frac) && IsZone(zone)
    ensures Parse(Spell(local, frac, zone))
         == Some((local - SecondsEast(zone)) * NANOS_PER_SECOND + FractionNanos(frac))
  {
    var point := if frac == "" then "" else "." + frac;
    Regroup(SecondText(local), point, ZoneText(zone));
    ParseSecondText(local, point + ZoneText(zone));
    ParseParts(Spell(local, frac, zone), local, frac, zone);
  }

  lemma MilliFraction(milli: nat)
    requires milli < 1000
    ensures AppendInt(milli, 3) == Fixed(milli, 3)
    ensures FractionNanos(Fixed(milli, 3)) == milli * NANOS_PER_MILLI
  {
    Powers();
    AppendIntIsFixed(milli, 3);
    ValueOfFixed(milli, 3);
    assert Shift(milli, 1) == 10 * Shift(milli, 0);
    assert Shift(milli, 2) == 10 * Shift(milli, 1);
    assert Shift(milli, 3) == 10 * Shift(milli, 2);
    assert Shift(milli, 4) == 10 * Shift(milli, 3);
    assert Shift(milli, 5) == 10 * Shift(milli, 4);
    assert Shift(milli, 6) == 10 * Shift(milli, 5);
  }

  /** What is stored is the UTC spelling with three fraction digits. */
  lemma FormatTimeIsSpelling(t: Instant)
    ensures FormatTime(t) == Spell(t / NANOS_PER_SECOND, Fixed(Millis(t) % 1000, 3), Utc)
  {
    hide FormatTime, SecondText;
    FormatTimeIs(t);
    var text := SecondText(t / NANOS_PER_SECOND);
    var milli := Fixed(Millis(t) % 1000, 3);
    MilliFraction(Millis(t) % 1000);
    Regroup(text, ".", milli);
  }

  lemma ParseMilliText(second: int, milli: nat)
    requires SecondInRange(second) && milli < 1000
    ensures Parse(Spell(second, Fixed(milli, 3), Utc)) == Some((second * 1000 + milli) * NANOS_PER_MILLI)
  {
    hide Spell, Parse;
    MilliFraction(milli);
    ParseSpelling(second, Fixed(milli, 3), Utc);
    assert second * NANOS_PER_SECOND + milli * NANOS_PER_MILLI == (second * 1000 + milli) * NANOS_PER_MILLI;
  }

  /** A stored timestamp reads back as the instant it was cut down to. */
  lemma ParseFormatTime(t: Instant)
    requires InLayoutRange(t)
    ensures Parse(FormatTime(t)) == Some(Millis(t) * NANOS_PER_MILLI)
  {
    hide Spell, Parse, FormatTime;
    FormatTimeIsSpelling(t);
    ParseMilliText(t / NANOS_PER_SECOND, Millis(t) % 1000);
    SplitMillis(t);
  }

  lemma NotATimestamp(s: string)
    requires |s| >= 5 && (!IsDigit(s[0]) || s[4] != '-')
    ensures Parse(s).None?
  {
    var u := TwoDigitHour(s);
    assert |u| >= 5 && u[..5] == s[..5];
    assert u[0] == u[..5][0] == s[0] && u[4] == u[..5][4] == s[4];
    if |u| >= 19 && NumberAt(u, 0, 4).Some? {
      assert u[0..4][0] == u[0];
    }
  }

  /** Outside the layout's years, and only there, the store writes what no reader accepts. */
  lemma ParseRefusesBeyondLayout(t: Instant)
    ensures Parse(FormatTime(t)).Some? <==> InLayoutRange(t)
  {
    hide FormatTime, Parse;
    if InLayoutRange(t) {
      ParseFormatTime(t);
    } else {
      YearStart(Year(t));
      StartsWithYear(t);
      var s, y := FormatTime(t), AppendInt(Year(t), 4);
      assert s[0] == s[..5][0] == y[0] && s[4] == s[..5][4] == y[4];
      NotATimestamp(s);
    }
  }

  lemma KeepsStart(x: string, rest: string)
    requires |x| >= 5
    ensures |x + rest| >= 5 && (x + rest)[..5] == x[..5]
  {
  }

  lemma StartsWithYear(t: Instant)
    requires |AppendInt(Year(t), 4)| >= 5
    ensures |FormatTime(t)| >= 5 && FormatTime(t)[..5] == AppendInt(Year(t), 4)[..5]
  {
    hide FormatTime, DateOf, YearOf;
    FormatTimeIs(t);
    var second := t / NANOS_PER_SECOND;
    DateOfIs(DayOfSecond(second));
    DateStartsWithYear(DateOf(DayOfSecond(second)));
    var date := DateText(DateOf(DayOfSecond(second)));
    KeepsStart(date, "T");
    KeepsStart(date + "T", ClockText(second % SECONDS_PER_DAY));
    KeepsStart(SecondText(second), ".");
    KeepsStart(SecondText(second) + ".", AppendInt(Millis(t) % 1000, 3));
    KeepsStart(SecondText(second) + "." + AppendInt(Millis(t) % 1000, 3), "Z");
  }

  lemma DateStartsWithYear(d: Date)
    requires |AppendInt(d.year, 4)| >= 5
    ensures |DateText(d)| >= 5 && DateText(d)[..5] == AppendInt(d.year, 4)[..5]
  {
    var y := AppendInt(d.year, 4);
    KeepsStart(y, "-");
    KeepsStart(y + "-", AppendInt(d.month, 2));
    KeepsStart(y + "-" + AppendInt(d.month, 2), "-");
    KeepsStart(y + "-" + AppendInt(d.month, 2) + "-", AppendInt(d.day, 2));
  }

  lemma YearStart(year: int)
    requires !(0 <= year <= 9999)
    ensures |AppendInt(year, 4)| >= 5
    ensures !IsDigit(AppendInt(year, 4)[0]) || AppendInt(year, 4)[4] != '-'
  {
    YearWidth(year);
    if year > 9999 {
      Powers();
      PadDigits(year, 4);
    }
  }

  /**
   A stored timestamp, in any spelling of any instant within its millisecond,
   comes back from the parser as the same stored string.
   */
  lemma RespelledIsStoredAgain(t: Instant, local: int, frac: string, zone: Zone)
    requires SecondInRange(local) && AllDigits(frac) && IsZone(zone)
    requires Millis((local - SecondsEast(zone)) * NANOS_PER_SECOND + FractionNanos(frac)) == Millis(t)
    ensures
      var parsed := Parse(Spell(local, frac, zone));
      parsed.Some? && FormatTime(parsed.value) == FormatTime(t)
  {
    hide *;
    ParseSpelling(local, frac, zone);
    FormatTimeOfMillis((local - SecondsEast(zone)) * NANOS_PER_SECOND + FractionNanos(frac), t);
  }

  // ---------- What a stored timestamp says ----------

  lemma MilliTail(s: string, f: string)
    requires |s| >= 19 && |f| == 3 && s[19..] == "." + (f + "Z")
    ensures |s| == 24 && s[19] == '.' && s[20..23] == f && s[23] == 'Z'
  {
    var rest := s[19..];
    assert |rest| == 5;
    assert s[19] == rest[0] && s[23] == rest[4] && s[20..23] == rest[1..4];
    assert rest[1..4] == f;
  }

  lemma TextReads(d: Date, h: nat, m: nat, c: nat, f: nat, s: string)
    requires IsDate(d) && 0 <= d.year <= 9999 && h < 24 && m < 60 && c < 60 && f < 1000
    requires s == Fixed(d.year, 4) + "-" + Fixed(d.month, 2) + "-" + Fixed(d.day, 2)
                  + "T" + (Fixed(h, 2) + ":" + Fixed(m, 2) + ":" + Fixed(c, 2)) + ("." + (Fixed(f, 3) + "Z"))
    ensures |s| == 24
    ensures s[4] == s[7] == '-' && s[10] == 'T' && s[13] == s[16] == ':' && s[19] == '.' && s[23] == 'Z'
    ensures NumberAt(s, 0, 4) == Some(d.year) && NumberAt(s, 5, 2) == Some(d.month) && NumberAt(s, 8, 2) == Some(d.day)
    ensures NumberAt(s, 11, 2) == Some(h) && NumberAt(s, 14, 2) == Some(m) && NumberAt(s, 17, 2) == Some(c)
    ensures NumberAt(s, 20, 3) == Some(f)
  {
    hide NumberAt, Fixed, IsDate, Pow10;
    Powers();
    DateBounds(d);
    var rest := "." + (Fixed(f, 3) + "Z");
    FieldsInPlace(Fixed(d.year, 4), Fixed(d.month, 2), Fixed(d.day, 2), Fixed(h, 2), Fixed(m, 2), Fixed(c, 2), rest, s);
    MilliTail(s, Fixed(f, 3));
    NumberInPlace(s, 0, 4, d.year);
    NumberInPlace(s, 5, 2, d.month);
    NumberInPlace(s, 8, 2, d.day);
    NumberInPlace(s, 11, 2, h);
    NumberInPlace(s, 14, 2, m);
    NumberInPlace(s, 17, 2, c);
    NumberInPlace(s, 20, 3, f);
  }

  lemma FormatTimeParts(t: Instant)
    requires InLayoutRange(t)
    ensures
      var second := t / NANOS_PER_SECOND;
      var d, c, f := DateOf(DayOfSecond(second)), second % SECONDS_PER_DAY, Millis(t) % 1000;
      && IsDate(d) && 0 <= d.year <= 9999
      && FormatTime(t) ==
           Fixed(d.year, 4) + "-" + Fixed(d.month, 2) + "-" + Fixed(d.day, 2)
           + "T" + (Fixed(c / 3600, 2) + ":" + Fixed(c / 60 % 60, 2) + ":" + Fixed(c % 60, 2))
           + ("." + (Fixed(f, 3) + "Z"))
  {
    hide FormatTime, DateOf, YearOf, Fixed, IsDate, AppendInt, Pow10;
    var second := t / NANOS_PER_SECOND;
    var d, c, f := DateOf(DayOfSecond(second)), second % SECONDS_PER_DAY, Millis(t) % 1000;
    DateOfIs(DayOfSecond(second));
    DateBounds(d);
    DateFields(d);
    ClockFields(c);
    Powers();
    AppendIntIsFixed(f, 3);
    FormatTimeIs(t);
    Regroup(SecondText(second) + ".", Fixed(f, 3), "Z");
    Regroup(SecondText(second), ".", Fixed(f, 3) + "Z");
  }

  /**
   Field by field: the date of the day since 0001-01-01, and hours, minutes,
   seconds and milliseconds of the day, in UTC, the milliseconds rounded down.
   */
  lemma FormatTimeReads(t: Instant)
    requires InLayoutRange(t)
    ensures
      var s, ms := FormatTime(t), t / 1_000_000;
      var d := DateOf(ms / 86_400_000 + 719162);
      && |s| == 24
      && s[4] == s[7] == '-' && s[10] == 'T' && s[13] == s[16] == ':' && s[19] == '.' && s[23] == 'Z'
      && NumberAt(s, 0, 4) == Some(d.year) && NumberAt(s, 5, 2) == Some(d.month) && NumberAt(s, 8, 2) == Some(d.day)
      && var h, m, c, f := NumberAt(s, 11, 2), NumberAt(s, 14, 2), NumberAt(s, 17, 2), NumberAt(s, 20, 3);
      && Within(h, 24) && Within(m, 60) && Within(c, 60) && Within(f, 1000)
      && h.value * 3_600_000 + m.value * 60_000 + c.value * 1000 + f.value == ms % 86_400_000
  {
    hide FormatTime, DateOf, YearOf, NumberAt, Fixed, IsDate;
    var second := t / NANOS_PER_SECOND;
    var d, c, f := DateOf(DayOfSecond(second)), second % SECONDS_PER_DAY, Millis(t) % 1000;
    FormatTimeParts(t);
    ClockSplit(c);
    TextReads(d, c / 3600, c / 60 % 60, c % 60, f, FormatTime(t));
    SplitDay(t);
  }

  lemma SplitDay(t: Instant)
    ensures
      var ms, second := t / 1_000_000, t / 1_000_000_000;
      && second / 86400 == ms / 86_400_000
      && second % 86400 * 1000 + ms % 1000 == ms % 86_400_000
  {
    var ms := t / 1_000_000;
    assert t / 1_000_000_000 == ms / 1000;
    assert ms / 1000 / 86400 == ms / 86_400_000;
  }

  /** The instant that means "absent", as it is written. */
  lemma ZeroInstantText()
    ensures FormatTime(ZERO_INSTANT) == "0001-01-01T00:00:00.000Z"
  {
    hide FormatTime, DateOf, AppendInt, Millis, DayOfSecond;
    FormatTimeIs(ZERO_INSTANT);
    FirstDays();
    ZeroParts();
    SmallNumerals();
    var second := ZERO_INSTANT / NANOS_PER_SECOND;
    assert DateText(DateOf(DayOfSecond(second))) == "0001-01-01";
    assert ClockText(second % SECONDS_PER_DAY) == "00:00:00";
  }

  lemma ZeroParts()
    ensures DayOfSecond(ZERO_INSTANT / NANOS_PER_SECOND) == 0 && ZERO_INSTANT / NANOS_PER_SECOND % SECONDS_PER_DAY == 0
    ensures Millis(ZERO_INSTANT) % 1000 == 0
  {
    assert ZERO_INSTANT / NANOS_PER_SECOND == -719162 * 86400;
    assert Millis(ZERO_INSTANT) == -719162 * 86400 * 1000;
  }

  lemma SmallNumerals()
    ensures AppendInt(1, 4) == "0001" && AppendInt(1, 2) == "01" && AppendInt(0, 2) == "00" && AppendInt(0, 3) == "000"
  {
    assert Pad(0, 1) == "0";
    assert Pad(0, 2) == "00";
    assert Pad(0, 3) == "000";
  }

  // ---------- What is accepted ----------

  /** A fraction is the digits behind the point as a part of a second, cut to nanoseconds. */
  lemma FractionMeans(frac: string)
    requires AllDigits(frac)
    ensures
      var n, unit := FractionNanos(frac), Pow10(|frac|);
      n * unit <= Value(frac) * 1_000_000_000 < (n + 1) * unit
  {
    if |frac| <= 9 {
      ShiftIsPower(Value(frac), 9 - |frac|);
      PowersMultiply(9 - |frac|, |frac|);
      NinePowers();
      MultiplyOut(Value(frac), Pow10(9 - |frac|), Pow10(|frac|));
    } else {
      var k := |frac| - 9;
      ValueSplits(frac, 9);
      ValueBelow(frac[9..]);
      PowersMultiply(k, 9);
      NinePowers();
      CutDigits(Value(frac[..9]), Value(frac[9..]), Pow10(k));
    }
  }

  lemma MultiplyOut(v: nat, a: nat, b: nat)
    requires a * b == 1_000_000_000 && b > 0
    ensures v * a * b == v * 1_000_000_000 < (v * a + 1) * b
  {
    assert v * a * b == v * (a * b);
  }

  lemma CutDigits(n: nat, rest: nat, p: nat)
    requires rest < p
    ensures n * (p * 1_000_000_000) <= (n * p + rest) * 1_000_000_000 < (n + 1) * (p * 1_000_000_000)
  {
    assert (n * p + rest) * 1_000_000_000 == n * (p * 1_000_000_000) + rest * 1_000_000_000;
    assert (n + 1) * (p * 1_000_000_000) == n * (p * 1_000_000_000) + p * 1_000_000_000;
  }

  lemma {:induction false} ShiftIsPower(n: nat, k: nat)
    ensures Shift(n, k) == n * Pow10(k)
  {
    if k > 0 {
      ShiftIsPower(n, k - 1);
      assert n * Pow10(k) == n * (10 * Pow10(k - 1)) == 10 * (n * Pow10(k - 1));
    }
  }

  lemma {:induction false} PowersMultiply(a: nat, b: nat)
    ensures Pow10(a) * Pow10(b) == Pow10(a + b)
  {
    if a > 0 {
      PowersMultiply(a - 1, b);
      assert 10 * Pow10(a - 1) * Pow10(b) == 10 * (Pow10(a - 1) * Pow10(b));
    }
  }

  lemma TimesTen(a: nat, p: nat)
    ensures a * (10 * p) == 10 * (a * p)
  {
  }

  lemma {:induction false} ValueSplits(s: string, k: nat)
    requires AllDigits(s) && k <= |s|
    ensures Value(s) == Value(s[..k]) * Pow10(|s| - k) + Value(s[k..])
  {
    if k == |s| {
      assert s[..k] == s && s[k..] == "";
    } else {
      var n := |s| - 1;
      var front := s[..n];
      ValueSplits(front, k);
      assert front[..k] == s[..k] && front[k..] == s[k..][..n - k] && s[k..][n - k] == s[n];
      TimesTen(Value(s[..k]), Pow10(n - k));
    }
  }

  lemma {:induction false} ValueBelow(s: string)
    requires AllDigits(s)
    ensures Value(s) < Pow10(|s|)
  {
    if s != "" {
      ValueBelow(s[..|s| - 1]);
    }
  }

  lemma NinePowers()
    ensures Pow10(9) == 1_000_000_000 && Pow10(4) == 10000
  {
    Powers();
    assert Pow10(5) == 10 * Pow10(4) && Pow10(6) == 10 * Pow10(5) && Pow10(7) == 10 * Pow10(6);
    assert Pow10(8) == 10 * Pow10(7) && Pow10(9) == 10 * Pow10(8);
  }

  // ---------- Exactly which texts are accepted ----------

  /** A timestamp as it may be written, with what Go takes beyond the standard. */
  datatype Spelling = Spelling(
    date: Date, hour: nat, minute: nat, second: nat, shortHour: bool, mark: char, frac: string, zone: Zone)

  predicate IsSpelling(w: Spelling) {
    && IsDate(w.date) && 0 <= w.date.year <= 9999
    && w.hour < (if w.shortHour then 10 else 24) && w.minute < 60 && w.second < 60
    && (w.mark == '.' || w.mark == ',') && AllDigits(w.frac) && IsZone(w.zone)
  }

  function FractionText(w: Spelling): string {
    if w.frac == "" then "" else [w.mark] + w.frac
  }

  function TextOf(w: Spelling): string
    requires IsSpelling(w)
  {
    Fixed(w.date.year, 4) + "-" + Fixed(w.date.month, 2) + "-" + Fixed(w.date.day, 2)
    + "T" + (Fixed(w.hour, if w.shortHour then 1 else 2) + ":" + Fixed(w.minute, 2) + ":" + Fixed(w.second, 2))
    + (FractionText(w) + ZoneText(w.zone))
  }

  function InstantOf(w: Spelling): Instant
    requires IsSpelling(w)
  {
    (SecondOf(w.date, w.hour, w.minute, w.second) - SecondsEast(w.zone)) * NANOS_PER_SECOND + FractionNanos(w.frac)
  }

  lemma {:induction false} FixedOfValue(x: string)
    requires AllDigits(x)
    ensures Fixed(Value(x), |x|) == x
  {
    if x != "" {
      var n := |x| - 1;
      FixedOfValue(x[..n]);
      var v, front := Value(x), Value(x[..n]);
      assert v == 10 * front + DigitValue(x[n]);
      assert v / 10 == front && v % 10 == DigitValue(x[n]);
      assert Digit(DigitValue(x[n])) == x[n];
      assert x == x[..n] + [x[n]];
    }
  }

  lemma NumberRead(s: string, at: nat, width: nat, n: nat)
    requires at + width <= |s| && NumberAt(s, at, width) == Some(n)
    ensures s[at..at + width] == Fixed(n, width)
  {
    FixedOfValue(s[at..at + width]);
  }

  lemma ZoneRead(z: string) returns (zone: Zone)
    requires ParseZone(z).Some?
    ensures IsZone(zone) && ZoneText(zone) == z && SecondsEast(zone) == ParseZone(z).value
  {
    if z == "Z" {
      zone := Utc;
    } else {
      zone := Offset(z[0] == '-', NumberAt(z, 1, 2).value, NumberAt(z, 4, 2).value);
      NumberRead(z, 1, 2, zone.hours);
      NumberRead(z, 4, 2, zone.minutes);
      assert z == [z[0]] + z[1..3] + ":" + z[4..6];
    }
  }

  /** What the first nineteen characters of an accepted text are. */
  lemma SecondRead(s: string) returns (w: Spelling)
    requires ParseSecond(s).Some?
    ensures |s| >= 19 && IsSpelling(w) && !w.shortHour && w.frac == "" && w.zone == Utc
    ensures ParseSecond(s).value == SecondOf(w.date, w.hour, w.minute, w.second)
    ensures s == Fixed(w.date.year, 4) + "-" + Fixed(w.date.month, 2) + "-" + Fixed(w.date.day, 2)
                 + "T" + (Fixed(w.hour, 2) + ":" + Fixed(w.minute, 2) + ":" + Fixed(w.second, 2)) + s[19..]
  {
    hide SecondOf, NumberAt, Fixed, IsDate, Pow10, AllDigits;
    var year, month, day := NumberAt(s, 0, 4).value, NumberAt(s, 5, 2).value, NumberAt(s, 8, 2).value;
    var h, m, c := NumberAt(s, 11, 2).value, NumberAt(s, 14, 2).value, NumberAt(s, 17, 2).value;
    NoDigits();
    w := Spelling(Date(year, month, day), h, m, c, false, '.', "", Utc);
    NumberRead(s, 0, 4, year);
    NumberRead(s, 5, 2, month);
    NumberRead(s, 8, 2, day);
    NumberRead(s, 11, 2, h);
    NumberRead(s, 14, 2, m);
    NumberRead(s, 17, 2, c);
    FourDigits(s);
    Pieces(s);
  }

  lemma NoDigits()
    ensures AllDigits("")
  {
  }

  lemma FourDigits(s: string)
    requires |s| >= 4 && NumberAt(s, 0, 4).Some?
    ensures NumberAt(s, 0, 4).value <= 9999
  {
    NinePowers();
    ValueBelow(s[0..4]);
  }

  lemma Pieces(s: string)
    requires |s| >= 19 && s[4] == s[7] == '-' && s[10] == 'T' && s[13] == s[16] == ':'
    ensures s == s[0..4] + "-" + s[5..7] + "-" + s[8..10] + "T" + (s[11..13] + ":" + s[14..16] + ":" + s[17..19]) + s[19..]
  {
  }

  /** Text with a two-digit hour is accepted only if it is a spelling. */
  lemma PaddedRead(s: string) returns (w: Spelling)
    requires ParsePadded(s).Some?
    ensures IsSpelling(w) && !w.shortHour && TextOf(w) == s && ParsePadded(s) == Some(InstantOf(w))
  {
    hide ParseSecond, ParseZone, SecondOf, Fixed, IsDate, FractionNanos, IsZone, ZoneText, SecondsEast, ParseFraction, AllDigits;
    var v := SecondRead(s);
    var frac := ParseFraction(s[19..]);
    var rest := if frac == "" then s[19..] else s[19..][1 + |frac|..];
    var zone := ZoneRead(rest);
    if frac == "" {
      w := v.(zone := zone);
      assert "" + rest == rest;
    } else {
      FractionRead(s[19..]);
      w := v.(mark := s[19..][0], frac := frac, zone := zone);
      assert s[19..] == [s[19..][0]] + frac + rest;
    }
  }

  lemma FractionRead(rest: string)
    requires ParseFraction(rest) != ""
    ensures
      var frac := ParseFraction(rest);
      (rest[0] == '.' || rest[0] == ',') && rest[..1 + |frac|] == [rest[0]] + frac
  {
    var frac := ParseFraction(rest);
    assert frac == rest[1..][..|frac|];
  }

  lemma TextParses(w: Spelling)
    requires IsSpelling(w) && !w.shortHour
    ensures |TextOf(w)| >= 19 && TextOf(w)[19..] == FractionText(w) + ZoneText(w.zone)
    ensures ParseSecond(TextOf(w)) == Some(SecondOf(w.date, w.hour, w.minute, w.second))
  {
    hide ParseSecond, SecondOf, Fixed, ZoneText, IsDate, IsZone, AllDigits;
    ParseFields(w.date, w.hour, w.minute, w.second, FractionText(w) + ZoneText(w.zone), TextOf(w));
  }

  lemma PaddedParts(s: string, second: int, frac: string, rest: string, east: int)
    requires ParseSecond(s) == Some(second) && |s| >= 19 && s[19..] == rest && ParseFraction(rest) == frac
    requires ParseZone(if frac == "" then rest else rest[1 + |frac|..]) == Some(east)
    ensures ParsePadded(s) == Some((second - east) * NANOS_PER_SECOND + FractionNanos(frac))
  {
    hide ParseSecond, ParseFraction, ParseZone, FractionNanos;
  }

  /** And every spelling with a two-digit hour is accepted as its instant. */
  lemma PaddedSpelling(w: Spelling)
    requires IsSpelling(w) && !w.shortHour
    ensures ParsePadded(TextOf(w)) == Some(InstantOf(w))
  {
    hide TextOf, ParsePadded, ParseSecond, SecondOf, ParseZone, Fixed, FractionNanos, ZoneText, SecondsEast, ParseFraction, IsDate, IsZone, AllDigits;
    TextParses(w);
    ParseZoneText(w.zone);
    FractionSpelling(w.mark, w.frac, ZoneText(w.zone));
    BehindFraction(w.mark, w.frac, ZoneText(w.zone));
    PaddedParts(
      TextOf(w), SecondOf(w.date, w.hour, w.minute, w.second), w.frac, FractionText(w) + ZoneText(w.zone), SecondsEast(w.zone));
  }

  lemma BehindFraction(mark: char, frac: string, zone: string)
    ensures "" + zone == zone && ([mark] + frac + zone)[1 + |frac|..] == zone
  {
  }

  lemma FractionSpelling(mark: char, frac: string, zone: string)
    requires AllDigits(frac) && (mark == '.' || mark == ',') && zone != "" && zone[0] in "Z+-"
    ensures ParseFraction((if frac == "" then "" else [mark] + frac) + zone) == frac
  {
    if frac == "" {
      assert "" + zone == zone;
    } else {
      var rest := [mark] + frac + zone;
      assert rest[1..] == frac + zone;
      LeadingDigitsStop(frac, zone);
      assert (frac + zone)[..|frac|] == frac;
    }
  }

  /** What stands before the hour, and what stands behind it. */
  function Front(w: Spelling): string
    requires IsSpelling(w)
  {
    Fixed(w.date.year, 4) + "-" + Fixed(w.date.month, 2) + "-" + Fixed(w.date.day, 2) + "T"
  }

  function Back(w: Spelling): string {
    ":" + Fixed(w.minute, 2) + ":" + Fixed(w.second, 2) + (FractionText(w) + ZoneText(w.zone))
  }

  lemma AroundHour(w: Spelling)
    requires IsSpelling(w)
    ensures TextOf(w) == Front(w) + (Fixed(w.hour, if w.shortHour then 1 else 2) + Back(w))
    ensures |Front(w)| == 11 && Back(w)[0] == ':'
  {
    hide IsSpelling, ZoneText, Fixed, FractionText;
    var front, hour := Front(w), Fixed(w.hour, if w.shortHour then 1 else 2);
    var clock, rest := ":" + Fixed(w.minute, 2) + ":" + Fixed(w.second, 2), FractionText(w) + ZoneText(w.zone);
    assert hour + ":" + Fixed(w.minute, 2) + ":" + Fixed(w.second, 2) == hour + clock;
    Regroup(front, hour + clock, rest);
    Regroup(hour, clock, rest);
  }

  /** The hour of a spelling is padded, and only that. */
  lemma HourPadded(w: Spelling)
    requires IsSpelling(w)
    ensures TwoDigitHour(TextOf(w)) == TextOf(w.(shortHour := false))
  {
    HourDigits(w.hour);
    AroundHour(w);
    AroundHour(w.(shortHour := false));
    assert Front(w.(shortHour := false)) == Front(w) && Back(w.(shortHour := false)) == Back(w);
    hide Fixed, Front, Back, TextOf, TwoDigitHour;
    InsertZero(Front(w), Fixed(w.hour, 1), Fixed(w.hour, 2), Back(w), w.shortHour);
  }

  lemma HourDigits(h: nat)
    ensures h < 10 ==> Fixed(h, 2) == "0" + Fixed(h, 1)
    ensures |Fixed(h, 1)| == 1 && |Fixed(h, 2)| == 2
    ensures IsDigit(Fixed(h, 1)[0]) && IsDigit(Fixed(h, 2)[0]) && IsDigit(Fixed(h, 2)[1])
  {
    assert Fixed(h, 1) == Fixed(h / 10, 0) + [Digit(h % 10)];
    if h < 10 {
      assert Fixed(h / 10, 1) == "0";
    }
  }

  lemma InsertZero(front: string, one: string, two: string, back: string, short: bool)
    requires |front| == 11 && |one| == 1 && |two| == 2 && back != "" && back[0] == ':'
    requires IsDigit(one[0]) && IsDigit(two[0]) && IsDigit(two[1]) && (short ==> two == "0" + one)
    ensures TwoDigitHour(front + ((if short then one else two) + back)) == front + (two + back)
  {
    var s := front + ((if short then one else two) + back);
    if short {
      assert s[11] == one[0] && s[12] == ':' && s[..11] == front && s[11..] == one + back;
      assert front + "0" + (one + back) == front + (two + back);
    } else {
      assert |s| >= 13 && s[12] == two[1];
    }
  }

  /** Taking the zero away again. */
  lemma HourUnpadded(s: string, w: Spelling)
    requires IsSpelling(w) && !w.shortHour && TwoDigitHour(s) == TextOf(w) && TwoDigitHour(s) != s
    ensures IsSpelling(w.(shortHour := true)) && TextOf(w.(shortHour := true)) == s
  {
    hide Fixed, Front, Back, TextOf, TwoDigitHour, IsDate, IsZone, AllDigits;
    SmallHour(w.hour);
    AroundHour(w);
    RemoveZero(s, Front(w), Fixed(w.hour, 2), Back(w));
    AroundHour(w.(shortHour := true));
    SameAround(w);
  }

  lemma SameAround(w: Spelling)
    requires IsSpelling(w) && IsSpelling(w.(shortHour := true))
    ensures Front(w.(shortHour := true)) == Front(w) && Back(w.(shortHour := true)) == Back(w)
  {
  }

  lemma RemoveZero(s: string, front: string, two: string, back: string)
    requires |front| == 11 && |two| == 2 && TwoDigitHour(s) == front + (two + back) && TwoDigitHour(s) != s
    ensures two[0] == '0' && s == front + (two[1..] + back)
  {
    var u := TwoDigitHour(s);
    assert u == s[..11] + "0" + s[11..];
    assert u[..11] == front && u[..11] == s[..11];
    assert u[11..] == two + back && u[11..] == "0" + s[11..];
    assert u[11..][0] == two[0] && u[11..][0] == '0';
    assert u[11..][1..] == two[1..] + back && u[11..][1..] == s[11..];
    assert s == s[..11] + s[11..];
  }

  lemma SmallHour(h: nat)
    requires h < 24
    ensures Fixed(h, 2)[0] == '0' ==> h < 10 && Fixed(h, 2)[1..] == Fixed(h, 1)
  {
    assert Fixed(h, 2) == Fixed(h / 10, 1) + [Digit(h % 10)];
    assert Fixed(h / 10, 1) == Fixed(h / 10 / 10, 0) + [Digit(h / 10 % 10)];
    assert Fixed(h, 1) == Fixed(h / 10, 0) + [Digit(h % 10)];
  }

  /**
   A text is accepted if and only if it is a spelling, and is read as the
   instant of that spelling.
   */
  lemma ParseAcceptsExactly(s: string, t: Instant)
    ensures Parse(s) == Some(t) <==> exists w :: IsSpelling(w) && TextOf(w) == s && InstantOf(w) == t
  {
    hide TwoDigitHour, ParsePadded, IsSpelling, TextOf, InstantOf;
    if Parse(s) == Some(t) {
      var u := TwoDigitHour(s);
      var w := PaddedRead(u);
      if u != s {
        HourUnpadded(s, w);
        SameInstant(w);
        assert InstantOf(w.(shortHour := true)) == t;
      }
    }
    forall w | IsSpelling(w) && TextOf(w) == s && InstantOf(w) == t
      ensures Parse(s) == Some(t)
    {
      HourPadded(w);
      SameInstant(w);
      PaddedSpelling(w.(shortHour := false));
    }
  }

  lemma SameInstant(w: Spelling)
    requires IsSpelling(w)
    ensures IsSpelling(w.(shortHour := false)) && InstantOf(w.(shortHour := false)) == InstantOf(w)
    ensures IsSpelling(w.(shortHour := true)) ==> InstantOf(w.(shortHour := true)) == InstantOf(w)
  {
  }
}
