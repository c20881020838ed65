# rfc3339 — a Dafny model of `format_unix`

The `rfc3339` crate turns a Unix timestamp into an RFC 3339 `date-time` string in UTC. Its input is whole seconds since 1970-01-01T00:00:00Z plus a microseconds part, and its output has the form `YYYY-MM-DDTHH:MM:SS.ffffffZ`. The conversion works in four steps:

1. It adds a fixed epoch offset, which moves the count onto the Rata Die day numbering.
2. It divides by 86400 to get a day number and a time of day.
3. It converts the day number to a proleptic Gregorian year, month and day with Peter Baum's closed-form Rata Die algorithm.
4. It renders the seven fields zero-padded to widths 4, 2, 2, 2, 2, 2 and 6.

The model has four modules:

- `Calendar` (`calendar.dfy`): the Gregorian calendar stated the plain way.
  - Leap years, month lengths and valid dates.
  - `DaysFromCivil`, the Rata Die number of a date, found by counting whole years and months. Rata Die 1 is 0001-01-01. Year 0 is allowed and is a leap year, so Rata Die 0 is 0000-12-31.
  - `NextDay` and chronological order. All of these are reference definitions, independent of the algorithm.
- `RataDie` (`rata_die.dfy`): `rdn_to_ymd` as the function `RdnToYmd`.
  - It is written with the source's own constants and the `DAY_OFFSETS` table. `>> 2` is `/ 4` and `>> 14` is `/ 16384`.
  - Its contract says that for every day number the result is a valid date (month in 1..12, day in 1..days-in-month) whose `DaysFromCivil` is that day number.
  - Inside the body, the lemmas for the year step (`BaumYear`) and the month step (`BaumMonth`) show three things: the table index stays in bounds, `d - DAY_OFFSETS[m]` never goes below 1, and the arithmetic agrees with the divisible-by-4/100/400 rule.
  - `RdnToYmd` is therefore the inverse of `DaysFromCivil`, and consecutive day numbers give consecutive days.
- `Decimal` (`decimal.dfy`): the `{:0N}` integer formatting as `ZeroPadded(n, width)`.
  - The output has at least `width` digits, padded with leading zeros, and is never truncated.
  - `ParseDecimal` reads the digits back, and `LexLess` is character-wise string order.
- `Rfc3339` (`rfc3339.dfy`):
  - The constants `SECONDS_PER_DAY` and `UNIX_EPOCH`.
  - The split of a timestamp into a date and a time of day (`CivilFromUnix`).
  - The text layout (`Rfc3339Text`).
  - `FormatUnix`, the method that mirrors `format_unix` step by step. It computes on `u64`/`u32` subset types and appends each field to an output string.

The model's `FormatUnix` requires `seconds <= MAX_SECONDS`, where `MAX_SECONDS = 135536014634284799` is 4294967295-12-31T23:59:59Z. Below that bound the source has no arithmetic wrap-around:

- `seconds + UNIX_EPOCH` fits in `u64` (line 64).
- Every intermediate of `rdn_to_ymd` fits in `u64`.
- The year fits in `u32` before the `as u32` cast (line 95).

## Model

| member | source | states |
|---|---|---|
| `RataDie.RdnToYmd` | src/lib.rs:81-96 | for every day number the result is a valid Gregorian date (month 1..12, day 1..days in that month) whose Rata Die number is the input |
| `RataDie.BaumYear` | src/lib.rs:82-87 | the 400/100/4-year cycle arithmetic picks the March-based year that contains day z, and `b + z - 1461*y/4` is the day's place within that year |
| `RataDie.BaumCycle` | src/lib.rs:83-85 | day n lies s days into century c (0..3) of 400-year cycle q, and `b = a - (a >> 2)` equals 3q + c, the leap days the Gregorian rule drops before that century |
| `RataDie.BaumJulian` | src/lib.rs:86-87 | within century c of cycle q the computed year is the March-based year holding the day, and `1461*y >> 2` exceeds its Gregorian day count by exactly the 3q + c dropped leap days |
| `RataDie.BaumMonth` | src/lib.rs:88-93 | the month estimate `(535*d + 48950) >> 14` lands in 3..14 on the month containing day d, and after the `m > 12` fix the `DAY_OFFSETS` entry equals that month's March-based start |
| `RataDie.MarchDayValid` | src/lib.rs:90-95 | a day within its March-based month becomes a valid civil date once months 13 and 14 are moved to January and February of the next year |
| `RataDie.BaumFitsU64` | src/lib.rs:82-88 | for day numbers below 2^64/200 − 306, every intermediate product and sum of the algorithm fits in `u64` |
| `RataDie.RdnToYmdInvertsDaysFromCivil` | src/lib.rs:80-96 | `RdnToYmd` inverts the reference day count on every valid date with a non-negative day number |
| `RataDie.RdnToYmdSuccessor` | src/lib.rs:80-96 | day numbers rdn and rdn+1 map to consecutive calendar days |
| `RataDie.RdnToYmdMonotone` | src/lib.rs:80-96 | a larger day number gives a later date |
| `RataDie.RdnToYmdYearBelow` | src/lib.rs:95 | a day number before the first day of year y gives a year below y |
| `RataDie.RdnToYmdZero` | src/lib.rs:80-96 | Rata Die 0 is 0000-12-31 |
| `RataDie.RdnToYmdOne` | src/lib.rs:24 | Rata Die 1 is 0001-01-01 |
| `RataDie.RdnToYmdUnixEpoch` | src/lib.rs:39-40 | day 719163 is 1970-01-01 |
| `RataDie.RdnToYmdLeapDay2000` | src/lib.rs:80-96 | day 730179 is 2000-02-29 (2000 is divisible by 400, so it is a leap year) |
| `RataDie.RdnToYmdLeapDay2020` | src/lib.rs:80-96 | day 737484 is 2020-02-29 |
| `RataDie.RdnToYmdCentury2100` | src/lib.rs:80-96 | day 766703 is 2100-02-28 and the next day is 2100-03-01 (2100 is not a leap year) |
| `RataDie.DaysFromCivilClosedForm` | src/lib.rs:24 | the Rata Die number of a date equals the closed form 365y + leap-year count + month table + day − 366 |
| `Calendar.DaysBeforeYearClosedForm` | src/lib.rs:24 | counting years one by one gives 365y + (y+3)/4 − (y+99)/100 + (y+399)/400 days |
| `Calendar.DaysFromCivilMonotone` | src/lib.rs:24 | the reference day count preserves chronological order |
| `Calendar.DaysFromCivilInjective` | src/lib.rs:24 | distinct valid dates have distinct day numbers |
| `Calendar.NextDayFollows` | src/lib.rs:24 | the next calendar day is valid and has day number + 1 |
| `Decimal.ZeroPadded` | src/lib.rs:74 | the rendering is all digits and at least `width` long, and exactly `width` long when the number fits |
| `Decimal.ParseZeroPadded` | src/lib.rs:74 | the padded digits read back as the number, at any width |
| `Decimal.ZeroPaddedWidth` | src/lib.rs:74 | the field is exactly `width` wide if and only if the number is below 10^width; otherwise it is wider, never truncated |
| `Decimal.ZeroPaddedOrder` | src/lib.rs:74 | at a fixed width, a smaller number gives a lexicographically smaller field |
| `Rfc3339.UnixEpochIsWholeDays` | src/lib.rs:39-40 | `UNIX_EPOCH` is 719163 × 86400, and 719163 is the Rata Die number of 1970-01-01 |
| `Rfc3339.UnixDayNumber` | src/lib.rs:64-66 | the day number passed to `rdn_to_ymd` is seconds/86400 + 719163, and the time of day is seconds mod 86400 |
| `Rfc3339.SplitTimeOfDay` | src/lib.rs:66-69 | hour < 24, minute < 60, second < 60, and hour·3600 + minute·60 + second is the time of day |
| `Rfc3339.SplitTimeOfDayInverts` | src/lib.rs:67-69 | the split inverts the count: hour, minute and second are recovered from hour·3600 + minute·60 + second |
| `Rfc3339.CivilFromUnix` | src/lib.rs:64-69 | the date and time computed from a timestamp are valid and lie exactly that many seconds after 1970-01-01T00:00:00 |
| `Rfc3339.CivilFromUnixInverts` | src/lib.rs:64-69 | the split inverts the calendar's seconds count on every date-time from the epoch on |
| `Rfc3339.CivilFromUnixMonotone` | src/lib.rs:64-69 | later timestamps give later date-times |
| `Rfc3339.DayYearFitsU32` | src/lib.rs:95 | up to the last day number format_unix can compute under its bound, the year is below 2^32, so `y as u32` does not truncate |
| `Rfc3339.YearFitsU32` | src/lib.rs:95 | for seconds ≤ `MAX_SECONDS`, `seconds + UNIX_EPOCH` fits in `u64` (line 64) and the year fits in `u32` |
| `Rfc3339.FourDigitYear` | src/lib.rs:74 | up to 9999-12-31T23:59:59Z the year has four digits |
| `Rfc3339.DatePartLayout` | src/lib.rs:74 | `YYYY-MM-DD` is 10 characters with `-` at 4 and 7 and each field at its place |
| `Rfc3339.TimePartLayout` | src/lib.rs:74 | `HH:MM:SS` is 8 characters with `:` at 2 and 5 and each field at its place |
| `Rfc3339.Rfc3339Layout` | src/lib.rs:74-75 | for four-digit years and micros < 10^6 the text is 27 characters, with separators at 4, 7, 10, 13, 16, 19 and 26 and each of the seven fields zero-padded at its own offset |
| `Rfc3339.Rfc3339Digits` | src/lib.rs:74-75 | in that layout, every position other than a separator is a decimal digit |
| `Rfc3339.Rfc3339FieldsReadBack` | src/lib.rs:74-75 | in that layout, each numeric field reads back as year, month, day, hour, minute, second and micros |
| `Rfc3339.Rfc3339Widens` | src/lib.rs:74-75 | for any year and any micros the year and fraction fields widen and are not cut: the text is 17 + their widths long (at least 27), ends in `Z`, and both fields read back whole |
| `Rfc3339.DatePartOrder` | src/lib.rs:74 | for four-digit years a later date gives a lexicographically larger date text |
| `Rfc3339.TimePartOrder` | src/lib.rs:74 | on one date a later time gives a lexicographically larger time text |
| `Rfc3339.Rfc3339TextOrder` | src/lib.rs:74 | for four-digit years and the same micros, a later date-time gives a lexicographically larger text |
| `Rfc3339.FormatUnixOrderForward` | src/lib.rs:63-78 | for timestamps up to year 9999 and a fixed micros, a later timestamp gives a text that sorts later |
| `Rfc3339.FormatUnixOrder` | src/lib.rs:63-78 | for timestamps up to year 9999 and a fixed micros, s1 < s2 if and only if the text for s1 sorts before the text for s2 |
| `Rfc3339.FormatUnixEpoch` | src/lib.rs:39-40 | timestamp 0 renders as `1970-01-01T00:00:00.000000Z` |
| `Rfc3339.FormatUnixNewYear2021` | src/lib.rs:60-61 | (1609459200, 0) renders as `2021-01-01T00:00:00.000000Z` |
| `Rfc3339.FormatUnixWithMicros` | src/lib.rs:105-111 | (1445470140, 123456) renders as `2015-10-21T23:29:00.123456Z` |
| `Rfc3339.FormatUnixLeapDay2020` | src/lib.rs:63-78 | (1582934400, 0) renders as `2020-02-29T00:00:00.000000Z` |
| `Rfc3339.FormatUnixCentury2100Before` | src/lib.rs:63-78 | (4107542399, 0) renders as `2100-02-28T23:59:59.000000Z` |
| `Rfc3339.FormatUnixCentury2100After` | src/lib.rs:63-78 | one second later, (4107542400, 0) renders as `2100-03-01T00:00:00.000000Z` |
| `Rfc3339.RenderingIsUnique` | src/lib.rs:63-78 | every valid date-time at the same Unix time has the same text |
| `Rfc3339.FormatUnix` | src/lib.rs:63-78 | the output, built field by field in `u64`/`u32` arithmetic, is the RFC 3339 text of the date-time the timestamp denotes, and of any valid date-time with that Unix time |

## Left out

- The `std`/`no_std` feature switch and the `heapless::String<27>` alias (src/lib.rs:30-35, 43-46). The model has one unbounded output string.
- What happens when the `heapless` buffer overflows (src/lib.rs:72). The error is discarded by `let _ =`, and what is left in the buffer depends on the `heapless` and `core::fmt` internals, which are not part of this model. For four-digit years and micros below 10^6 the text is exactly 27 characters (`Rfc3339Layout`), so it would fit that buffer.
- The `core::fmt::Write`/`write!` machinery (src/lib.rs:72-76). It is replaced by the explicit renderer `ZeroPadded`, and the format string's pieces are appended one by one in `FormatUnix`.
- FormatUnix: does not model the `u64` wrap of `seconds + UNIX_EPOCH` (line 64) or the truncating `y as u32` cast (line 95). Instead it requires `seconds <= MAX_SECONDS`, which rules out both.
- RdnToYmd: written on mathematical naturals. That its intermediates fit in `u64` is shown separately, by `BaumFitsU64`, for day numbers below 2^64/200 − 306. The calls from `FormatUnix` stay well inside that bound.
- Leap seconds: Unix time has none, and neither does the model (`second < 60`).
- Years above 9999 are not valid RFC 3339 (section 5.6 asks for `4DIGIT`). The model covers them only by `Rfc3339Widens`, which shows the field widens and is not cut.
