/** Peter Baum's branch-free conversion from a Rata Die day number to a
    proleptic Gregorian (year, month, day), as the library computes it,
    proved to agree with the year-by-year count of the Calendar module.

    Internally the algorithm counts in March-based years: a March-based
    year Y runs from Y-03-01 to the last day of February of year Y+1, so
    the variable-length February comes last. */
module RataDie {
  import opened Calendar

  const U64_LIMIT: nat := 0x1_0000_0000_0000_0000
  const U32_LIMIT: nat := 0x1_0000_0000

  /** The source's unsigned machine integers. */
  type u64 = x: nat | x < 0x1_0000_0000_0000_0000
  type u32 = x: nat | x < 0x1_0000_0000

  /** Day-of-month offsets indexed by the (wrapped) month: months 3..12
      sit at their own index, months 13 and 14 of the March-based year
      (January and February) sit at indices 1 and 2. Index 0 is unused. */
  const DAY_OFFSETS: seq<nat> := [0, 306, 337, 0, 31, 61, 92, 122, 153, 184, 214, 245, 275]

  /** Days from 0000-03-01 to Y-03-01: each such span holds the leap
      days of years 1 .. Y. */
  function MarchDays(y: nat): nat {
    365 * y + y / 4 - y / 100 + y / 400
  }

  /** Days before March-based month mm (3 = March .. 14 = next February). */
  function MarchMonthStart(mm: nat): nat
    requires 3 <= mm <= 14
  {
    [0, 31, 61, 92, 122, 153, 184, 214, 245, 275, 306, 337][mm - 3]
  }

  /** Rata Die day number to (year, month, day). Every intermediate is
      typed nat, so none of the source's unsigned subtractions underflows,
      and the table index is in bounds. */
  function RdnToYmd(rdn: nat): (date: Date)
    ensures ValidDate(date)
    ensures DaysFromCivil(date) == rdn
  {
    var z: nat := rdn + 306;
    var h: nat := 100 * z - 25;
    var a: nat := h / 3652425;
    var b: nat := a - a / 4;
    var y: nat := (100 * b + h) / 36525;
    BaumYear(z, h, a, b, y);
    var d: nat := b + z - 1461 * y / 4;
    var m: nat := (535 * d + 48950) / 16384;
    MarchYearLength(y);
    BaumMonth(d, DaysInYear(y + 1), m);
    CivilFromMarch(y, m, d - MarchMonthStart(m));
    MarchDayValid(y, m, d - MarchMonthStart(m));
    if m > 12 then Date(y + 1, m - 12, d - DAY_OFFSETS[m - 12])
    else Date(y, m, d - DAY_OFFSETS[m])
  }

  /** For day numbers below 2^64 / 200 (far above any that format_unix
      passes) none of the intermediate values of lines 82-88 leaves u64. */
  lemma BaumFitsU64(rdn: nat)
    requires rdn + 306 < U64_LIMIT / 200
    ensures var z := rdn + 306;
      var h := 100 * z - 25;
      var a := h / 3652425;
      var b := a - a / 4;
      var y := (100 * b + h) / 36525;
      var d := b + z - 1461 * y / 4;
      && 100 * z < U64_LIMIT && 100 * b + h < U64_LIMIT && b + z < U64_LIMIT
      && 1461 * y < U64_LIMIT && 535 * d + 48950 < U64_LIMIT
  {
    var z := rdn + 306;
    var h := 100 * z - 25;
    var a := h / 3652425;
    var b := a - a / 4;
    var y := (100 * b + h) / 36525;
    BaumYear(z, h, a, b, y);
    MarchYearLength(y);
  }

  /** RdnToYmd inverts the calendar count on every date from 0000-12-31 on. */
  lemma RdnToYmdInvertsDaysFromCivil(date: Date)
    requires ValidDate(date) && DaysFromCivil(date) >= 0
    ensures RdnToYmd(DaysFromCivil(date) as nat) == date
  {
    DaysFromCivilInjective(RdnToYmd(DaysFromCivil(date) as nat), date);
  }

  /** Consecutive day numbers give consecutive calendar days. */
  lemma RdnToYmdSuccessor(rdn: nat)
    ensures RdnToYmd(rdn + 1) == NextDay(RdnToYmd(rdn))
  {
    NextDayFollows(RdnToYmd(rdn));
    DaysFromCivilInjective(RdnToYmd(rdn + 1), NextDay(RdnToYmd(rdn)));
  }

  /** Day numbers in order give dates in order. */
  lemma RdnToYmdMonotone(rdn1: nat, rdn2: nat)
    requires rdn1 < rdn2
    ensures DateBefore(RdnToYmd(rdn1), RdnToYmd(rdn2))
  {
    var d1, d2 := RdnToYmd(rdn1), RdnToYmd(rdn2);
    if !DateBefore(d1, d2) {
      if d1 == d2 {
      } else {
        DaysFromCivilMonotone(d2, d1);
      }
    }
  }

  /** A day number before the first day of year y falls in an earlier year. */
  lemma RdnToYmdYearBelow(rdn: nat, y: nat)
    requires rdn < DaysFromCivil(Date(y, 1, 1))
    ensures RdnToYmd(rdn).year < y
  {
    var d, start := RdnToYmd(rdn), Date(y, 1, 1);
    if d.year >= y && d != start {
      assert DateBefore(start, d);
      DaysFromCivilMonotone(start, d);
    }
  }

  /** The day number of a date, by the closed forms of the calendar count. */
  lemma DaysFromCivilClosedForm(date: Date)
    requires 1 <= date.month <= 12
    ensures DaysFromCivil(date)
            == 365 * date.year + (date.year + 3) / 4 - (date.year + 99) / 100 + (date.year + 399) / 400
               + [0, 31, 59, 90, 120, 151, 181, 212, 243, 273, 304, 334][date.month - 1]
               + (if date.month > 2 && IsLeapYear(date.year) then 1 else 0)
               + date.day - 366
  {
    DaysBeforeYearClosedForm(date.year);
    DaysBeforeMonthTable(date.year, date.month);
  }

  /** A known date and its day number, confirmed through the inverse. */
  lemma KnownDate(rdn: nat, date: Date)
    requires ValidDate(date)
    requires rdn == 365 * date.year + (date.year + 3) / 4 - (date.year + 99) / 100 + (date.year + 399) / 400
                    + [0, 31, 59, 90, 120, 151, 181, 212, 243, 273, 304, 334][date.month - 1]
                    + (if date.month > 2 && IsLeapYear(date.year) then 1 else 0)
                    + date.day - 366
    ensures RdnToYmd(rdn) == date
  {
    DaysFromCivilClosedForm(date);
    RdnToYmdInvertsDaysFromCivil(date);
  }

  /** Rata Die 0 is the last day of year 0. */
  lemma RdnToYmdZero()
    ensures RdnToYmd(0) == Date(0, 12, 31)
  {
    KnownDate(0, Date(0, 12, 31));
  }

  /** Rata Die 1 is 0001-01-01. */
  lemma RdnToYmdOne()
    ensures RdnToYmd(1) == Date(1, 1, 1)
  {
    KnownDate(1, Date(1, 1, 1));
  }

  /** 719163 is the day number of the Unix epoch 1970-01-01. */
  lemma RdnToYmdUnixEpoch()
    ensures RdnToYmd(719163) == Date(1970, 1, 1)
  {
    KnownDate(719163, Date(1970, 1, 1));
  }

  /** 2000 is divisible by 400, so it has a 29 February. */
  lemma RdnToYmdLeapDay2000()
    ensures RdnToYmd(730179) == Date(2000, 2, 29)
  {
    KnownDate(730179, Date(2000, 2, 29));
  }

  /** 2020 is divisible by 4 and not a century: a leap year. */
  lemma RdnToYmdLeapDay2020()
    ensures RdnToYmd(737484) == Date(2020, 2, 29)
  {
    KnownDate(737484, Date(2020, 2, 29));
  }

  /** 2100 is a century not divisible by 400: 28 February is its last day of February. */
  lemma RdnToYmdCentury2100()
    ensures RdnToYmd(766703) == Date(2100, 2, 28)
    ensures RdnToYmd(766703 + 1) == Date(2100, 3, 1)
  {
    KnownDate(766703, Date(2100, 2, 28));
    RdnToYmdSuccessor(766703);
  }

  /** Lines 82-87: the 400-, 100- and 4-year cycles recover the March-based
      year y of day z (z == 1 is 0000-03-01) and its day-of-year d. */
  lemma BaumYear(z: nat, h: nat, a: nat, b: nat, y: nat)
    requires z >= 1
    requires h == 100 * z - 25 && a == h / 3652425 && b == a - a / 4
    requires y == (100 * b + h) / 36525
    ensures MarchDays(y) < z <= MarchDays(y + 1)
    ensures b + z - 1461 * y / 4 == z - MarchDays(y)
  {
    var n := z - 1;
    var q, r := n / 146097, n % 146097;
    var c := (100 * r + 75) / 3652425;
    BaumCycle(n, h, a, b);
    BaumJulian(q, c, r - 36524 * c, y);
  }

  /** The 400-year cycle q and the century c within it (lines 83-85):
      day n lies s days into century c of cycle q. */
  lemma BaumCycle(n: nat, h: nat, a: nat, b: nat)
    requires h == 100 * (n + 1) - 25 && a == h / 3652425 && b == a - a / 4
    ensures var q, r := n / 146097, n % 146097;
      var c := (100 * r + 75) / 3652425;
      && c <= 3 && 36524 * c <= r && b == 3 * q + c
      && (r - 36524 * c < 36524 || (c == 3 && r - 36524 * c < 36525))
      && 100 * b + h == 36525 * (400 * q + 100 * c) + (100 * (r - 36524 * c) + 75)
  {
    var q, r := n / 146097, n % 146097;
    assert h == 3652425 * (4 * q) + (100 * r + 75);
    var c := (100 * r + 75) / 3652425;
    assert c <= 3;
    assert a == 4 * q + c;
    assert a / 4 == q;
  }

  /** The Julian 4-year cycles within one century (lines 86-87): the year
      y found from s days into century c of 400-year cycle q. */
  lemma BaumJulian(q: nat, c: nat, s: nat, y: nat)
    requires c <= 3 && (s < 36524 || (c == 3 && s < 36525))
    requires y == (36525 * (400 * q + 100 * c) + (100 * s + 75)) / 36525
    ensures MarchDays(y) <= 146097 * q + 36524 * c + s < MarchDays(y + 1)
    ensures 1461 * y / 4 == MarchDays(y) + 3 * q + c
  {
    var j := (100 * s + 75) / 36525;
    assert j <= 99;
    assert y == 400 * q + 100 * c + j;
    assert 1461 * j <= 4 * s + 3 < 1461 * (j + 1);
    assert y / 4 == 100 * q + 25 * c + j / 4;
    assert y / 100 == 4 * q + c;
    assert y / 400 == q;
    assert MarchDays(y) == 146097 * q + 36524 * c + 1461 * j / 4;
    assert 1461 * y / 4 == 146100 * q + 36525 * c + 1461 * j / 4;
    assert 1461 * j / 4 <= s;
    var y' := y + 1;
    if j < 99 {
      assert y' / 4 == 100 * q + 25 * c + (j + 1) / 4;
      assert y' / 100 == 4 * q + c;
      assert y' / 400 == q;
      assert s < 1461 * (j + 1) / 4;
    } else {
      assert y' == 400 * q + 100 * (c + 1);
      assert y' / 4 == 100 * q + 25 * (c + 1);
      assert y' / 100 == 4 * q + c + 1;
      assert y' / 400 == q + (c + 1) / 4;
    }
  }

  /** A March-based year Y is a leap year exactly when it ends with the
      leap day of civil year Y+1. */
  lemma MarchYearLength(y: nat)
    ensures MarchDays(y + 1) == MarchDays(y) + DaysInYear(y + 1)
  {
    FloorStep(y, 4);
    FloorStep(y, 100);
    FloorStep(y, 400);
    LeapYearByCounting(y + 1);
  }

  /** From x to x+1 the count of positive multiples of k grows exactly when k divides x+1. */
  lemma FloorStep(x: nat, k: nat)
    requires k == 4 || k == 100 || k == 400
    ensures (x + 1) / k == x / k + (if (x + 1) % k == 0 then 1 else 0)
  {
  }

  /** Civil year y+1 begins 306 days after the March-based year y does. */
  lemma DaysBeforeYearFromMarch(y: nat)
    ensures DaysBeforeYear(y + 1) == MarchDays(y) + 366
  {
    DaysBeforeYearClosedForm(y + 1);
    assert (y + 1 + 3) / 4 == y / 4 + 1;
    assert (y + 1 + 99) / 100 == y / 100 + 1;
    assert (y + 1 + 399) / 400 == y / 400 + 1;
  }

  /** Lines 88-93 and the table of line 38: the month estimate. For a day d
      of a March-based year of len days, (535*d + 48950) / 16384 is the
      March-based month mm in 3..14, whose days are those after
      MarchMonthStart(mm); the table holds those starts at the wrapped index. */
  lemma BaumMonth(d: nat, len: nat, mm: nat)
    requires len == 365 || len == 366
    requires 1 <= d <= len
    requires mm == (535 * d + 48950) / 16384
    ensures 3 <= mm <= 14
    ensures MarchMonthStart(mm) < d
    ensures mm < 14 ==> d <= MarchMonthStart(mm + 1)
    ensures DAY_OFFSETS[if mm > 12 then mm - 12 else mm] == MarchMonthStart(mm)
  {
    if d <= 31 { assert mm == 3; }
    else if d <= 61 { assert mm == 4; }
    else if d <= 92 { assert mm == 5; }
    else if d <= 122 { assert mm == 6; }
    else if d <= 153 { assert mm == 7; }
    else if d <= 184 { assert mm == 8; }
    else if d <= 214 { assert mm == 9; }
    else if d <= 245 { assert mm == 10; }
    else if d <= 275 { assert mm == 11; }
    else if d <= 306 { assert mm == 12; }
    else if d <= 337 { assert mm == 13; }
    else { assert mm == 14; }
  }

  /** Day dd of March-based month mm of March-based year Y, as a civil date. */
  function FromMarch(y: nat, mm: nat, dd: nat): Date
    requires 3 <= mm <= 14
  {
    if mm > 12 then Date(y + 1, mm - 12, dd) else Date(y, mm, dd)
  }

  /** A day within the bounds of its March-based month is a valid civil date;
      the last month, February, is 28 days long, or 29 in a leap year. */
  lemma MarchDayValid(y: nat, mm: nat, dd: nat)
    requires 3 <= mm <= 14 && 1 <= dd
    requires MarchMonthStart(mm) + dd <= if mm < 14 then MarchMonthStart(mm + 1) else 365 + (if IsLeapYear(y + 1) then 1 else 0)
    ensures ValidDate(FromMarch(y, mm, dd))
  {
  }

  /** The civil day number of a March-based date. */
  lemma CivilFromMarch(y: nat, mm: nat, dd: int)
    requires 3 <= mm <= 14
    requires 1 <= dd
    ensures DaysFromCivil(FromMarch(y, mm, dd)) == MarchDays(y) + MarchMonthStart(mm) + dd - 306
  {
    DaysBeforeYearFromMarch(y);
    if mm > 12 {
      DaysBeforeMonthTable(y + 1, mm - 12);
    } else {
      DaysBeforeMonthTable(y, mm);
    }
  }
}
