/** format_unix: a Unix timestamp (seconds and microseconds) rendered as
    the RFC 3339 `date-time` production (section 5.6 of RFC 3339) in UTC,
    always with six fractional digits and the "Z" offset:
    YYYY-MM-DDTHH:MM:SS.ffffffZ. */
module Rfc3339 {
  import opened Calendar
  import opened RataDie
  import opened Decimal

  const SECONDS_PER_DAY: nat := 86400
  /** Seconds from Rata Die day 0 (0000-12-31) to 1970-01-01T00:00:00Z. */
  const UNIX_EPOCH: nat := 62135683200
  /** The Rata Die number of 1970-01-01. */
  const UNIX_EPOCH_DAYS: nat := 719163

  /** 4294967295-12-31T23:59:59Z: the last second whose year fits in u32. */
  const MAX_SECONDS: nat := 135536014634284799
  /** 9999-12-31T23:59:59Z: the last second with a four-digit year. */
  const MAX_FOUR_DIGIT_SECONDS: nat := 253402300799

  /** A UTC date and time of day, to the second. Unix time has no leap seconds. */
  datatype DateTime = DateTime(date: Date, hour: nat, minute: nat, second: nat)

  predicate ValidDateTime(dt: DateTime) {
    ValidDate(dt.date) && dt.hour < 24 && dt.minute < 60 && dt.second < 60
  }

  /** Strict chronological order on date-times. */
  predicate DateTimeBefore(dt1: DateTime, dt2: DateTime) {
    DateBefore(dt1.date, dt2.date)
    || (dt1.date == dt2.date && dt1.hour < dt2.hour)
    || (dt1.date == dt2.date && dt1.hour == dt2.hour && dt1.minute < dt2.minute)
    || (dt1.date == dt2.date && dt1.hour == dt2.hour && dt1.minute == dt2.minute && dt1.second < dt2.second)
  }

  /** Seconds since 1970-01-01T00:00:00Z, counted through the calendar. */
  function UnixTimeOf(dt: DateTime): int
    requires 1 <= dt.date.month <= 12
  {
    (DaysFromCivil(dt.date) - UNIX_EPOCH_DAYS) * SECONDS_PER_DAY
    + dt.hour * 3600 + dt.minute * 60 + dt.second
  }

  /** The epoch constant is a whole number of days, and that number of
      days is the Rata Die number of 1970-01-01. */
  lemma UnixEpochIsWholeDays()
    ensures UNIX_EPOCH == UNIX_EPOCH_DAYS * SECONDS_PER_DAY
    ensures DaysFromCivil(Date(1970, 1, 1)) == UNIX_EPOCH_DAYS
  {
    DaysFromCivilClosedForm(Date(1970, 1, 1));
  }

  /** Adding the epoch shifts the day number by 719163 days and leaves the
      time of day alone. */
  lemma UnixDayNumber(seconds: nat)
    ensures (seconds + UNIX_EPOCH) / SECONDS_PER_DAY == seconds / SECONDS_PER_DAY + UNIX_EPOCH_DAYS
    ensures (seconds + UNIX_EPOCH) % SECONDS_PER_DAY == seconds % SECONDS_PER_DAY
  {
    assert seconds + UNIX_EPOCH == SECONDS_PER_DAY * (seconds / SECONDS_PER_DAY + UNIX_EPOCH_DAYS)
                                   + seconds % SECONDS_PER_DAY;
  }

  /** Lines 67-69: hour, minute and second of a time of day. */
  function SplitTimeOfDay(sec: nat): (hms: (nat, nat, nat))
    requires sec < SECONDS_PER_DAY
    ensures hms.0 < 24 && hms.1 < 60 && hms.2 < 60
    ensures hms.0 * 3600 + hms.1 * 60 + hms.2 == sec
  {
    (sec / 3600, (sec % 3600) / 60, sec % 60)
  }

  /** SplitTimeOfDay inverts the count of seconds of a time of day. */
  lemma SplitTimeOfDayInverts(hour: nat, minute: nat, second: nat)
    requires hour < 24 && minute < 60 && second < 60
    ensures SplitTimeOfDay(hour * 3600 + minute * 60 + second) == (hour, minute, second)
  {
    var sec := hour * 3600 + minute * 60 + second;
    assert sec == 3600 * hour + (60 * minute + second);
    assert sec == 60 * (60 * hour + minute) + second;
  }

  /** Lines 64-69: the date-time of a Unix timestamp. The result is the
      valid date-time that lies `seconds` after the Unix epoch. */
  function CivilFromUnix(seconds: nat): (dt: DateTime)
    ensures ValidDateTime(dt)
    ensures UnixTimeOf(dt) == seconds
  {
    var total := seconds + UNIX_EPOCH;
    var date := RdnToYmd(total / SECONDS_PER_DAY);
    var (hour, minute, second) := SplitTimeOfDay(total % SECONDS_PER_DAY);
    DateTime(date, hour, minute, second)
  }

  lemma UnixTimeOfMonotone(dt1: DateTime, dt2: DateTime)
    requires ValidDateTime(dt1) && ValidDateTime(dt2)
    requires DateTimeBefore(dt1, dt2)
    ensures UnixTimeOf(dt1) < UnixTimeOf(dt2)
  {
    if DateBefore(dt1.date, dt2.date) {
      DaysFromCivilMonotone(dt1.date, dt2.date);
    }
  }

  /** Two valid date-times at the same Unix time are the same. */
  lemma UnixTimeOfInjective(dt1: DateTime, dt2: DateTime)
    requires ValidDateTime(dt1) && ValidDateTime(dt2)
    requires UnixTimeOf(dt1) == UnixTimeOf(dt2)
    ensures dt1 == dt2
  {
    if DateTimeBefore(dt1, dt2) {
      UnixTimeOfMonotone(dt1, dt2);
    } else if DateTimeBefore(dt2, dt1) {
      UnixTimeOfMonotone(dt2, dt1);
    } else {
      assert dt1.date == dt2.date;
    }
  }

  /** CivilFromUnix inverts UnixTimeOf on every date-time from the epoch on. */
  lemma CivilFromUnixInverts(dt: DateTime)
    requires ValidDateTime(dt) && UnixTimeOf(dt) >= 0
    ensures CivilFromUnix(UnixTimeOf(dt) as nat) == dt
  {
    UnixTimeOfInjective(CivilFromUnix(UnixTimeOf(dt) as nat), dt);
  }

  /** Later timestamps give later date-times. */
  lemma CivilFromUnixMonotone(s1: nat, s2: nat)
    requires s1 < s2
    ensures DateTimeBefore(CivilFromUnix(s1), CivilFromUnix(s2))
  {
    var dt1, dt2 := CivilFromUnix(s1), CivilFromUnix(s2);
    if DateTimeBefore(dt2, dt1) {
      UnixTimeOfMonotone(dt2, dt1);
    }
  }

  /** A timestamp before the first second of year y has a year below y. */
  lemma YearBelow(seconds: nat, y: nat)
    requires seconds < UnixTimeOf(DateTime(Date(y, 1, 1), 0, 0, 0))
    ensures CivilFromUnix(seconds).date.year < y
  {
    var dt := CivilFromUnix(seconds);
    var start := DateTime(Date(y, 1, 1), 0, 0, 0);
    if dt.date.year >= y && dt != start {
      assert DateTimeBefore(start, dt);
      UnixTimeOfMonotone(start, dt);
    }
  }

  /** The largest day number format_unix passes to rdn_to_ymd under its bound. */
  const MAX_DAYS: nat := 1568704592244

  /** Up to MAX_DAYS the year of a day number fits in u32 (line 95). */
  lemma DayYearFitsU32(days: nat)
    requires days <= MAX_DAYS
    ensures RdnToYmd(days).year < U32_LIMIT
  {
    DaysFromCivilClosedForm(Date(U32_LIMIT, 1, 1));
    RdnToYmdYearBelow(days, U32_LIMIT);
  }

  /** The bound of format_unix keeps seconds + UNIX_EPOCH within u64
      (line 64) and the year within u32 (line 95). */
  lemma YearFitsU32(seconds: nat)
    requires seconds <= MAX_SECONDS
    ensures seconds + UNIX_EPOCH < U64_LIMIT
    ensures CivilFromUnix(seconds).date.year < U32_LIMIT
  {
    DayYearFitsU32((seconds + UNIX_EPOCH) / SECONDS_PER_DAY);
  }

  /** Up to 9999-12-31T23:59:59Z the year has four digits. */
  lemma FourDigitYear(seconds: nat)
    requires seconds <= MAX_FOUR_DIGIT_SECONDS
    ensures CivilFromUnix(seconds).date.year < 10000
  {
    DaysFromCivilClosedForm(Date(10000, 1, 1));
    YearBelow(seconds, 10000);
  }

  function DatePart(d: Date): string {
    ZeroPadded(d.year, 4) + "-" + ZeroPadded(d.month, 2) + "-" + ZeroPadded(d.day, 2)
  }

  function TimePart(dt: DateTime): string {
    ZeroPadded(dt.hour, 2) + ":" + ZeroPadded(dt.minute, 2) + ":" + ZeroPadded(dt.second, 2)
  }

  /** Line 74: "{:04}-{:02}-{:02}T{:02}:{:02}:{:02}.{:06}Z". */
  function Rfc3339Text(dt: DateTime, micros: nat): string {
    DatePart(dt.date) + "T" + TimePart(dt) + "." + ZeroPadded(micros, 6) + "Z"
  }

  /** Five pieces laid end to end, each found again at its offset. */
  lemma Concat5(a: string, b: string, c: string, d: string, e: string)
    ensures var t := a + b + c + d + e;
      var i1, i2, i3, i4 := |a|, |a| + |b|, |a| + |b| + |c|, |a| + |b| + |c| + |d|;
      && |t| == i4 + |e|
      && t[..i1] == a && t[i1..i2] == b && t[i2..i3] == c && t[i3..i4] == d && t[i4..] == e
  {
  }

  /** YYYY-MM-DD: ten characters, "-" at 4 and 7. */
  lemma DatePartLayout(d: Date)
    requires ValidDate(d) && d.year < 10000
    ensures var t := DatePart(d);
      && |t| == 10 && t[4] == '-' && t[7] == '-'
      && t[0..4] == ZeroPadded(d.year, 4) && t[5..7] == ZeroPadded(d.month, 2)
      && t[8..10] == ZeroPadded(d.day, 2)
  {
    assert Pow10(2) == 100 && Pow10(4) == 10000;
    Concat5(ZeroPadded(d.year, 4), "-", ZeroPadded(d.month, 2), "-", ZeroPadded(d.day, 2));
  }

  /** HH:MM:SS: eight characters, ":" at 2 and 5. */
  lemma TimePartLayout(dt: DateTime)
    requires ValidDateTime(dt)
    ensures var t := TimePart(dt);
      && |t| == 8 && t[2] == ':' && t[5] == ':'
      && t[0..2] == ZeroPadded(dt.hour, 2) && t[3..5] == ZeroPadded(dt.minute, 2)
      && t[6..8] == ZeroPadded(dt.second, 2)
  {
    assert Pow10(2) == 100;
    Concat5(ZeroPadded(dt.hour, 2), ":", ZeroPadded(dt.minute, 2), ":", ZeroPadded(dt.second, 2));
  }

  /** For four-digit years and micros below one million the text is the
      27-character RFC 3339 layout: separators at fixed places and every
      field exactly as wide as its format. */
  lemma Rfc3339Layout(dt: DateTime, micros: nat)
    requires ValidDateTime(dt) && dt.date.year < 10000 && micros < 1000000
    ensures var t := Rfc3339Text(dt, micros);
      && |t| == 27
      && t[4] == '-' && t[7] == '-' && t[10] == 'T' && t[13] == ':' && t[16] == ':'
      && t[19] == '.' && t[26] == 'Z'
      && t[0..4] == ZeroPadded(dt.date.year, 4)
      && t[5..7] == ZeroPadded(dt.date.month, 2)
      && t[8..10] == ZeroPadded(dt.date.day, 2)
      && t[11..13] == ZeroPadded(dt.hour, 2)
      && t[14..16] == ZeroPadded(dt.minute, 2)
      && t[17..19] == ZeroPadded(dt.second, 2)
      && t[20..26] == ZeroPadded(micros, 6)
  {
    var t := Rfc3339Text(dt, micros);
    var d, tm, f := DatePart(dt.date), TimePart(dt), ZeroPadded(micros, 6);
    assert Pow10(6) == 1000000;
    DatePartLayout(dt.date);
    TimePartLayout(dt);
    assert t == (d + "T" + tm) + "." + f + "Z";
    assert t[..10] == d && t[11..19] == tm && t[20..26] == f;
    assert t[0..4] == d[0..4] && t[5..7] == d[5..7] && t[8..10] == d[8..10];
    assert t[11..13] == tm[0..2] && t[14..16] == tm[3..5] && t[17..19] == tm[6..8];
  }

  /** Every position of the 27-character layout other than a separator is a digit. */
  lemma Rfc3339Digits(dt: DateTime, micros: nat)
    requires ValidDateTime(dt) && dt.date.year < 10000 && micros < 1000000
    ensures var t := Rfc3339Text(dt, micros);
      |t| == 27 && forall i | 0 <= i < 27 && i !in {4, 7, 10, 13, 16, 19, 26} :: IsDigit(t[i])
  {
    var t := Rfc3339Text(dt, micros);
    Rfc3339Layout(dt, micros);
    forall i | 0 <= i < 27 && i !in {4, 7, 10, 13, 16, 19, 26}
      ensures IsDigit(t[i])
    {
      if i < 4 { assert t[i] == t[0..4][i]; }
      else if i < 7 { assert t[i] == t[5..7][i - 5]; }
      else if i < 10 { assert t[i] == t[8..10][i - 8]; }
      else if i < 13 { assert t[i] == t[11..13][i - 11]; }
      else if i < 16 { assert t[i] == t[14..16][i - 14]; }
      else if i < 19 { assert t[i] == t[17..19][i - 17]; }
      else { assert t[i] == t[20..26][i - 20]; }
    }
  }

  /** The seven numeric fields of the 27-character layout read back as the
      year, month, day, hour, minute, second and microseconds. */
  lemma Rfc3339FieldsReadBack(dt: DateTime, micros: nat)
    requires ValidDateTime(dt) && dt.date.year < 10000 && micros < 1000000
    ensures var t := Rfc3339Text(dt, micros);
      && |t| == 27
      && ParseDecimal(t[0..4]) == dt.date.year
      && ParseDecimal(t[5..7]) == dt.date.month
      && ParseDecimal(t[8..10]) == dt.date.day
      && ParseDecimal(t[11..13]) == dt.hour
      && ParseDecimal(t[14..16]) == dt.minute
      && ParseDecimal(t[17..19]) == dt.second
      && ParseDecimal(t[20..26]) == micros
  {
    Rfc3339Layout(dt, micros);
    ParseZeroPadded(dt.date.year, 4);
    ParseZeroPadded(dt.date.month, 2);
    ParseZeroPadded(dt.date.day, 2);
    ParseZeroPadded(dt.hour, 2);
    ParseZeroPadded(dt.minute, 2);
    ParseZeroPadded(dt.second, 2);
    ParseZeroPadded(micros, 6);
  }

  /** Outside the four-digit and six-digit ranges the year and fraction
      fields widen rather than being cut: the text still ends in "Z" and
      the year and micros read back whole. */
  lemma Rfc3339Widens(dt: DateTime, micros: nat)
    requires ValidDateTime(dt)
    ensures var t := Rfc3339Text(dt, micros);
      var yw, fw := |ZeroPadded(dt.date.year, 4)|, |ZeroPadded(micros, 6)|;
      && |t| == yw + fw + 17 && |t| >= 27
      && t[|t| - 1] == 'Z'
      && t[..yw] == ZeroPadded(dt.date.year, 4) && ParseDecimal(t[..yw]) == dt.date.year
      && t[|t| - 1 - fw..|t| - 1] == ZeroPadded(micros, 6) && ParseDecimal(t[|t| - 1 - fw..|t| - 1]) == micros
  {
    var t := Rfc3339Text(dt, micros);
    var y, f := ZeroPadded(dt.date.year, 4), ZeroPadded(micros, 6);
    assert Pow10(2) == 100;
    TimePartLayout(dt);
    var y1 := y + "-";
    var y2 := y1 + ZeroPadded(dt.date.month, 2);
    var y3 := y2 + "-";
    var d := y3 + ZeroPadded(dt.date.day, 2);
    var w := d + "T" + TimePart(dt) + ".";
    var x := w + f;
    assert |w| == |y| + 16;
    assert t == x + "Z";
    assert t[..|x|] == x;
    assert t[..|y|] == y by {
      assert t[..|y|] == x[..|y|] == w[..|y|] == d[..|y|];
      assert d[..|y|] == y3[..|y|] == y2[..|y|] == y1[..|y|] == y;
    }
    assert t[|w|..|x|] == x[|w|..] == f;
    ParseZeroPadded(dt.date.year, 4);
    ParseZeroPadded(micros, 6);
  }

  /** A later date sorts later as text. */
  lemma DatePartOrder(d1: Date, d2: Date)
    requires ValidDate(d1) && ValidDate(d2) && d1.year < 10000 && d2.year < 10000
    requires DateBefore(d1, d2)
    ensures LexLess(DatePart(d1), DatePart(d2))
  {
    assert Pow10(2) == 100 && Pow10(4) == 10000;
    var y1, y2 := ZeroPadded(d1.year, 4), ZeroPadded(d2.year, 4);
    var m1, m2 := ZeroPadded(d1.month, 2), ZeroPadded(d2.month, 2);
    var e1, e2 := ZeroPadded(d1.day, 2), ZeroPadded(d2.day, 2);
    if d1.year < d2.year {
      ZeroPaddedOrder(d1.year, d2.year, 4);
      LexLessExtend(y1, y2, "-", "-");
      LexLessExtend(y1 + "-", y2 + "-", m1, m2);
      LexLessExtend(y1 + "-" + m1, y2 + "-" + m2, "-", "-");
      LexLessExtend(y1 + "-" + m1 + "-", y2 + "-" + m2 + "-", e1, e2);
    } else if d1.month < d2.month {
      ZeroPaddedOrder(d1.month, d2.month, 2);
      LexLessPrefix(y1 + "-", m1, m2);
      LexLessExtend(y1 + "-" + m1, y1 + "-" + m2, "-", "-");
      LexLessExtend(y1 + "-" + m1 + "-", y1 + "-" + m2 + "-", e1, e2);
    } else {
      ZeroPaddedOrder(d1.day, d2.day, 2);
      LexLessPrefix(y1 + "-" + m1 + "-", e1, e2);
    }
  }

  /** Within one day, a later time sorts later as text. */
  lemma TimePartOrder(dt1: DateTime, dt2: DateTime)
    requires ValidDateTime(dt1) && ValidDateTime(dt2) && dt1.date == dt2.date
    requires DateTimeBefore(dt1, dt2)
    ensures LexLess(TimePart(dt1), TimePart(dt2))
  {
    assert Pow10(2) == 100;
    var h1, h2 := ZeroPadded(dt1.hour, 2), ZeroPadded(dt2.hour, 2);
    var m1, m2 := ZeroPadded(dt1.minute, 2), ZeroPadded(dt2.minute, 2);
    var s1, s2 := ZeroPadded(dt1.second, 2), ZeroPadded(dt2.second, 2);
    if dt1.hour < dt2.hour {
      ZeroPaddedOrder(dt1.hour, dt2.hour, 2);
      LexLessExtend(h1, h2, ":", ":");
      LexLessExtend(h1 + ":", h2 + ":", m1, m2);
      LexLessExtend(h1 + ":" + m1, h2 + ":" + m2, ":", ":");
      LexLessExtend(h1 + ":" + m1 + ":", h2 + ":" + m2 + ":", s1, s2);
    } else if dt1.minute < dt2.minute {
      ZeroPaddedOrder(dt1.minute, dt2.minute, 2);
      LexLessPrefix(h1 + ":", m1, m2);
      LexLessExtend(h1 + ":" + m1, h1 + ":" + m2, ":", ":");
      LexLessExtend(h1 + ":" + m1 + ":", h1 + ":" + m2 + ":", s1, s2);
    } else {
      ZeroPaddedOrder(dt1.second, dt2.second, 2);
      LexLessPrefix(h1 + ":" + m1 + ":", s1, s2);
    }
  }

  /** The fixed-width layout sorts as time does (section 5.1 of RFC 3339). */
  lemma Rfc3339TextOrder(dt1: DateTime, dt2: DateTime, micros: nat)
    requires ValidDateTime(dt1) && ValidDateTime(dt2)
    requires dt1.date.year < 10000 && dt2.date.year < 10000
    requires DateTimeBefore(dt1, dt2)
    ensures LexLess(Rfc3339Text(dt1, micros), Rfc3339Text(dt2, micros))
  {
    var f := ZeroPadded(micros, 6);
    var d1, d2 := DatePart(dt1.date), DatePart(dt2.date);
    var t1, t2 := TimePart(dt1), TimePart(dt2);
    DatePartLayout(dt1.date);
    DatePartLayout(dt2.date);
    TimePartLayout(dt1);
    TimePartLayout(dt2);
    if DateBefore(dt1.date, dt2.date) {
      DatePartOrder(dt1.date, dt2.date);
      LexLessExtend(d1, d2, "T", "T");
      LexLessExtend(d1 + "T", d2 + "T", t1, t2);
    } else {
      TimePartOrder(dt1, dt2);
      LexLessPrefix(d1 + "T", t1, t2);
    }
    LexLessExtend(d1 + "T" + t1, d2 + "T" + t2, ".", ".");
    LexLessExtend(d1 + "T" + t1 + ".", d2 + "T" + t2 + ".", f, f);
    LexLessExtend(d1 + "T" + t1 + "." + f, d2 + "T" + t2 + "." + f, "Z", "Z");
  }

  /** For four-digit years and a fixed micros, a later timestamp gives a
      text that sorts later. */
  lemma FormatUnixOrderForward(s1: nat, s2: nat, micros: nat)
    requires s1 < s2 <= MAX_FOUR_DIGIT_SECONDS
    ensures LexLess(Rfc3339Text(CivilFromUnix(s1), micros), Rfc3339Text(CivilFromUnix(s2), micros))
  {
    FourDigitYear(s1);
    FourDigitYear(s2);
    CivilFromUnixMonotone(s1, s2);
    Rfc3339TextOrder(CivilFromUnix(s1), CivilFromUnix(s2), micros);
  }

  /** For four-digit years and a fixed micros, comparing the texts compares
      the timestamps, in both directions. */
  lemma FormatUnixOrder(s1: nat, s2: nat, micros: nat)
    requires s1 <= MAX_FOUR_DIGIT_SECONDS && s2 <= MAX_FOUR_DIGIT_SECONDS
    ensures s1 < s2 <==> LexLess(Rfc3339Text(CivilFromUnix(s1), micros), Rfc3339Text(CivilFromUnix(s2), micros))
  {
    if s1 < s2 {
      FormatUnixOrderForward(s1, s2, micros);
    } else if s2 < s1 {
      FormatUnixOrderForward(s2, s1, micros);
      LexLessAsymmetric(Rfc3339Text(CivilFromUnix(s2), micros), Rfc3339Text(CivilFromUnix(s1), micros));
    } else {
      LexLessIrreflexive(Rfc3339Text(CivilFromUnix(s1), micros));
    }
  }

  /** A date-time from its day number and time of day, confirmed through the inverse. */
  lemma KnownInstant(seconds: nat, rdn: nat, dt: DateTime)
    requires ValidDateTime(dt)
    requires rdn == 365 * dt.date.year + (dt.date.year + 3) / 4 - (dt.date.year + 99) / 100
                    + (dt.date.year + 399) / 400
                    + [0, 31, 59, 90, 120, 151, 181, 212, 243, 273, 304, 334][dt.date.month - 1]
                    + (if dt.date.month > 2 && IsLeapYear(dt.date.year) then 1 else 0)
                    + dt.date.day - 366
    requires seconds == (rdn - 719163) * 86400 + dt.hour * 3600 + dt.minute * 60 + dt.second
    ensures CivilFromUnix(seconds) == dt
  {
    DaysFromCivilClosedForm(dt.date);
    assert UnixTimeOf(dt) == seconds;
    CivilFromUnixInverts(dt);
  }

  /** The text of DateTime(Date(1970, 1, 1), 0, 0, 0). */
  lemma FormatUnixEpochText()
    ensures Rfc3339Text(DateTime(Date(1970, 1, 1), 0, 0, 0), 0) == "1970-01-01T00:00:00.000000Z"
  {
  }

  /** Timestamp 0 is 1970-01-01T00:00:00Z. */
  lemma FormatUnixEpoch()
    ensures Rfc3339Text(CivilFromUnix(0), 0) == "1970-01-01T00:00:00.000000Z"
  {
    KnownInstant(0, 719163, DateTime(Date(1970, 1, 1), 0, 0, 0));
    FormatUnixEpochText();
  }

  /** The text of DateTime(Date(2021, 1, 1), 0, 0, 0). */
  lemma FormatUnixNewYear2021Text()
    ensures Rfc3339Text(DateTime(Date(2021, 1, 1), 0, 0, 0), 0) == "2021-01-01T00:00:00.000000Z"
  {
  }

  /** The example of the library's documentation. */
  lemma FormatUnixNewYear2021()
    ensures Rfc3339Text(CivilFromUnix(1609459200), 0) == "2021-01-01T00:00:00.000000Z"
  {
    KnownInstant(1609459200, 737791, DateTime(Date(2021, 1, 1), 0, 0, 0));
    FormatUnixNewYear2021Text();
  }

  /** The text of DateTime(Date(2015, 10, 21), 23, 29, 0). */
  lemma FormatUnixWithMicrosText()
    ensures Rfc3339Text(DateTime(Date(2015, 10, 21), 23, 29, 0), 123456) == "2015-10-21T23:29:00.123456Z"
  {
  }

  /** The example of the library's unit test, with microseconds. */
  lemma FormatUnixWithMicros()
    ensures Rfc3339Text(CivilFromUnix(1445470140), 123456) == "2015-10-21T23:29:00.123456Z"
  {
    KnownInstant(1445470140, 735892, DateTime(Date(2015, 10, 21), 23, 29, 0));
    FormatUnixWithMicrosText();
  }

  /** The text of DateTime(Date(2020, 2, 29), 0, 0, 0). */
  lemma FormatUnixLeapDay2020Text()
    ensures Rfc3339Text(DateTime(Date(2020, 2, 29), 0, 0, 0), 0) == "2020-02-29T00:00:00.000000Z"
  {
  }

  /** A leap day in a year divisible by 4. */
  lemma FormatUnixLeapDay2020()
    ensures Rfc3339Text(CivilFromUnix(1582934400), 0) == "2020-02-29T00:00:00.000000Z"
  {
    KnownInstant(1582934400, 737484, DateTime(Date(2020, 2, 29), 0, 0, 0));
    FormatUnixLeapDay2020Text();
  }

  /** The text of DateTime(Date(2100, 2, 28), 23, 59, 59). */
  lemma FormatUnixCentury2100BeforeText()
    ensures Rfc3339Text(DateTime(Date(2100, 2, 28), 23, 59, 59), 0) == "2100-02-28T23:59:59.000000Z"
  {
  }

  /** 2100 is not a leap year: after 2100-02-28T23:59:59 comes 2100-03-01. */
  lemma FormatUnixCentury2100Before()
    ensures Rfc3339Text(CivilFromUnix(4107542399), 0) == "2100-02-28T23:59:59.000000Z"
  {
    KnownInstant(4107542399, 766703, DateTime(Date(2100, 2, 28), 23, 59, 59));
    FormatUnixCentury2100BeforeText();
  }

  /** The text of DateTime(Date(2100, 3, 1), 0, 0, 0). */
  lemma FormatUnixCentury2100AfterText()
    ensures Rfc3339Text(DateTime(Date(2100, 3, 1), 0, 0, 0), 0) == "2100-03-01T00:00:00.000000Z"
  {
  }

  /** 2100 is not a leap year: after 2100-02-28T23:59:59 comes 2100-03-01. */
  lemma FormatUnixCentury2100After()
    ensures Rfc3339Text(CivilFromUnix(4107542400), 0) == "2100-03-01T00:00:00.000000Z"
  {
    KnownInstant(4107542400, 766704, DateTime(Date(2100, 3, 1), 0, 0, 0));
    FormatUnixCentury2100AfterText();
  }

  /** Every valid date-time at a given Unix time has the same text. */
  lemma RenderingIsUnique(seconds: nat, micros: nat)
    ensures forall dt :: ValidDateTime(dt) && UnixTimeOf(dt) == seconds ==>
              Rfc3339Text(dt, micros) == Rfc3339Text(CivilFromUnix(seconds), micros)
  {
    forall dt | ValidDateTime(dt) && UnixTimeOf(dt) == seconds
      ensures Rfc3339Text(dt, micros) == Rfc3339Text(CivilFromUnix(seconds), micros)
    {
      UnixTimeOfInjective(dt, CivilFromUnix(seconds));
    }
  }

  /** The time fields appended one at a time after the date give the
      same text as the time part appended as a whole. */
  lemma AppendedTime(prefix: string, h: string, mi: string, sc: string)
    ensures prefix + h + ":" + mi + ":" + sc == prefix + (h + ":" + mi + ":" + sc)
  {
  }

  /** Lines 63-78. The buffer is built by appending the fields in order;
      the text is that of the one valid date-time at `seconds`. */
  method FormatUnix(seconds: u64, micros: u32) returns (output: string)
    requires seconds <= MAX_SECONDS
    ensures output == Rfc3339Text(CivilFromUnix(seconds), micros)
    ensures forall dt :: ValidDateTime(dt) && UnixTimeOf(dt) == seconds ==> output == Rfc3339Text(dt, micros)
  {
    var total: u64 := seconds + UNIX_EPOCH;
    var daysSinceEpoch: u64 := total / SECONDS_PER_DAY;
    DayYearFitsU32(daysSinceEpoch);
    BaumFitsU64(daysSinceEpoch);
    var date := RdnToYmd(daysSinceEpoch);
    var year: u32, month: u32, day: u32 := date.year, date.month, date.day;
    var sec: u64 := total % SECONDS_PER_DAY;
    var hour: u64 := sec / 3600;
    var minute: u64 := (sec % 3600) / 60;
    var second: u64 := sec % 60;

    output := [];
    output := output + ZeroPadded(year, 4);
    assert output == ZeroPadded(year, 4);
    output := output + "-";
    output := output + ZeroPadded(month, 2);
    output := output + "-";
    output := output + ZeroPadded(day, 2);
    output := output + "T";
    output := output + ZeroPadded(hour, 2);
    output := output + ":";
    output := output + ZeroPadded(minute, 2);
    output := output + ":";
    output := output + ZeroPadded(second, 2);
    output := output + ".";
    output := output + ZeroPadded(micros, 6);
    output := output + "Z";

    var dt := DateTime(date, hour, minute, second);
    assert dt == CivilFromUnix(seconds);
    AppendedTime(DatePart(date) + "T", ZeroPadded(hour, 2), ZeroPadded(minute, 2), ZeroPadded(second, 2));
    RenderingIsUnique(seconds, micros);
  }
}
