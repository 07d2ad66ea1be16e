# Gregorian dates and the calendar conversion contract

This project models the calendar core of the `time` crate. The crate represents dates in
a calendar system and converts between calendars through a shared day count,
`StandardCalendar`. The core has two parts:

- `GregorianDate`. This is a record `(year: i128, month: u8, day: u8)` with the month stored
  zero-based. It comes with a validating constructor `from_parts`, two twelve-entry tables
  of month lengths, the proleptic Gregorian leap-year rule, the accessors, `reference_date`,
  `as_days`, `add_days`, and the two `From` conversions to and from `StandardCalendar`.
- The calendar contract. `StandardCalendar` wraps a signed day count. A calendar type
  provides two `From` conversions, and a blanket implementation turns them into
  `to_standard` and `from_standard`. `convert_to` is the target's `from_standard` applied
  to the source's `to_standard`.

Files:

- `rust_int.dfy` (module `RustInt`) models the Rust integer types `i128` and `u8` as
  subset types. It also defines Rust's truncating `/` and `%` (`Quot`, `Rem`) and the
  `as u8` cast (`AsU8`). Dafny's own `/` and `%` are Euclidean.
- `calendar.dfy` (module `Calendar`) models `StandardCalendar`, `new`, the blanket
  `to_standard`/`from_standard`, and `convert_to`. Dafny has no trait here, so a calendar
  type is passed as a value `Conversions<T>` holding its two `From` conversions. Each
  conversion is a partial function whose precondition is the set of inputs on which it
  does not panic.
- `gregorian.dfy` (module `Gregorian`) models everything in `gregorian.rs`.

## How the model treats the source

- Integer overflow that panics in a debug build is a precondition. This covers `day - 1` in
  `from_parts` (only once the month check has passed), `month() + 1`, `year * 365 + day`
  in `as_days` and `to_standard`, and both additions in `add_days`.
- `add_days(&mut self, …)` updates two fields of a record the caller owns exclusively.
  It is a method that takes the date and returns the updated record. It applies the two
  field updates in the source's order, and the function `Shifted` specifies the result.
- The day-count conversions, `as_days` and `add_days` are the crate's interim formulas.
  A date counts as `year * 365 + day` days, and the way back divides by 365. The model
  follows the code, not the documented intent ("days since 1 January of year 1").
  The lemmas therefore show where the formulas lose information:
  - the month is dropped;
  - the `u8` cast of the day drops 256 days;
  - a negative shift or day count whose remainder by 365 is nonzero moves forward by 256 or
    512 days, because the negative remainder is cast to `u8`;
  - negative day counts give stored month 0 or 245 to 255;
  - a date with a negative year and a day of 1 or more comes back one year closer to zero;
  - `convert_to::<GregorianDate>` is not the identity;
  - the reference date counts as day 365.

## Where the formulas and the crate's own documentation disagree

The crate documents day 0 of `StandardCalendar` as 1 January of year 1
(time/src/calendar.rs:5 and 10). It also documents the reference date as day 0, with
`as_days` counting the days since it (time/src/calendar.rs:47-51 and 55). The Gregorian
formulas meet neither promise: the reference date `(1, 0, 0)` counts as day 365
(`Gregorian.ReferenceDateIsDay365`). The model follows the code.

## Model

| member | source | states |
|---|---|---|
| `RustInt.Quot` | time/src/date/gregorian.rs:74 | Rust's `/` on `i128` rounds toward zero. For a divisor b > 0 the result is the unique q with the dividend in [bq, bq+b) for non-negative dividends and in (bq-b, bq] for negative ones, and it never exceeds the dividend in magnitude. |
| `RustInt.Rem` | time/src/date/gregorian.rs:75-76 | Rust's `%` carries the dividend's sign and completes the truncating division. It equals Dafny's `%` on non-negative dividends, and it is zero exactly when Dafny's Euclidean remainder is zero. |
| `RustInt.AsU8` | time/src/date/gregorian.rs:75-76 | `as u8` gives the value in 0..=255 that is congruent to the input modulo 256. It is the identity on 0..=255. |
| `Calendar.New` | time/src/calendar.rs:16-18 | `StandardCalendar::new` accepts any day count and stores it unchanged. |
| `Calendar.NewIsOnto` | time/src/calendar.rs:9-12 | Every `StandardCalendar` is `new` applied to its own day count. |
| `Calendar.ToStandard` | time/src/calendar.rs:81-83 | The blanket `to_standard` is exactly the type's `From<&T> for StandardCalendar`. |
| `Calendar.FromStandard` | time/src/calendar.rs:85-87 | The blanket `from_standard` is exactly the type's `From<StandardCalendar> for T`. |
| `Calendar.ConvertTo` | time/src/calendar.rs:66-68 | `convert_to` equals the target's conversion out of the standard day count applied to the source's conversion into it. |
| `Calendar.ConvertToDependsOnlyOnStandard` | time/src/calendar.rs:66-68 | Two values with the same standard day count convert to the same value in any target calendar. |
| `Calendar.ConvertToSelfIsIdentity` | time/src/calendar.rs:66-88 | For any calendar whose two conversions round-trip, `convert_to::<Self>` is the identity. |
| `Calendar.ConvertThroughIntermediate` | time/src/calendar.rs:66-68 | Converting through an intermediate calendar that keeps every standard day count gives the same result as converting directly. |
| `Gregorian.TablesAgreeExceptFebruary` | time/src/date/gregorian.rs:14-15 | Both tables have 12 entries. They agree everywhere except February (28 against 29), and every entry is between 28 and 31. |
| `Gregorian.LeapTableAddsOneDay` | time/src/date/gregorian.rs:14-15 | The leap table is the regular table with February set to 29, so it sums to exactly one day more. |
| `Gregorian.TableTotals` | time/src/date/gregorian.rs:14-15 | The regular table sums to 365 and the leap table to 366. |
| `Gregorian.IsLeapYear` | time/src/date/gregorian.rs:128-130 | The year is a leap year iff `y % 4 == 0 && (y % 400 == 0 \|\| y % 100 != 0)`. The source computes this with truncating `%` on the signed year. The model proves it equal to the same rule with Euclidean remainders. |
| `Gregorian.LeapYearExamples` | time/src/date/gregorian.rs:121-126 | 2020 and 2000 are leap years. 1900, 2017 and 2018 are not. |
| `Gregorian.LeapYearIsSymmetric` | time/src/date/gregorian.rs:128-130 | Because the rule applies to the raw signed year, year -y is a leap year exactly when y is. |
| `Gregorian.LeapYearsRepeatEvery400` | time/src/date/gregorian.rs:128-130 | Whether a year is a leap year repeats every 400 years. |
| `Gregorian.LeapYearsInCentury` | time/src/date/gregorian.rs:128-130 | A century that starts on a multiple of 100 has 24 leap years. It has one more when its first year is divisible by 400. |
| `Gregorian.LeapYearsPer400` | time/src/date/gregorian.rs:128-130 | Any 400 consecutive years from `start`, with `start` and `start + 400` in `i128`, contain exactly 97 leap years. |
| `Gregorian.SlideForwardKeeps97` | time/src/date/gregorian.rs:128-130 | A 400-year window with 97 leap years still has 97 after sliding forward by any number of years. |
| `Gregorian.SlideBackwardKeeps97` | time/src/date/gregorian.rs:128-130 | A 400-year window with 97 leap years still has 97 after sliding backward by any number of years. |
| `Gregorian.MonthTableFollowsRule` | time/src/date/gregorian.rs:47-49 | For every month, the table selected by the leap-year test matches the usual month-length rule (thirty days hath September, February 28 or 29). |
| `Gregorian.FromParts` | time/src/date/gregorian.rs:36-58 | It succeeds iff the month is in 1..=12 and the day is between 1 and that month's length in that year, for any year. A bad month gives `InvalidMonth(month)` whatever the day. Otherwise a bad day gives `InvalidDay(day)`. On success it stores the year, the month minus one and the day. |
| `Gregorian.Day` | time/src/date/gregorian.rs:85-87 | `day()` returns the stored day, the one given to `from_parts`. |
| `Gregorian.Year` | time/src/date/gregorian.rs:89-91 | `year()` returns the stored year, the one given to `from_parts`. |
| `Gregorian.Month` | time/src/date/gregorian.rs:93-95 | `month()` is at least 1 and one more than the zero-based stored month. It lies in 1..=12 exactly when the stored month is in 0..=11. |
| `Gregorian.AccessorsRoundTrip` | time/src/date/gregorian.rs:85-95 | On a date built by `from_parts`, `year()`, `month()` and `day()` give back the parts it was built from. `month()` adds 1 back to the stored month. |
| `Gregorian.FromPartsExamples` | time/src/date/gregorian.rs:22-34 | (2008, 4, 22) succeeds and reads back as 2008, 4 and 22. (2020, 2, 29) and (2000, 2, 29) succeed. (1900, 2, 29) fails with `InvalidDay(29)`. |
| `Gregorian.ReferenceDate` | time/src/date/gregorian.rs:97-99 | The reference date has `year()` 1, `month()` 1 and `day()` 0. |
| `Gregorian.ReferenceDateIsNotConstructible` | time/src/date/gregorian.rs:51-55 | No call to `from_parts` returns the reference date, because day 0 is never accepted. |
| `Gregorian.ReferenceDateIsDay365` | time/src/date/gregorian.rs:61-67 | The reference date converts to standard day 365, not day 0. |
| `Gregorian.StandardFromDate` | time/src/date/gregorian.rs:61-67 | The conversion into `StandardCalendar` gives the same day count as `as_days`. |
| `Gregorian.AsDays` | time/src/date/gregorian.rs:106-109 | The count lies in the 256 days that start at 365 times the year. Truncating division by 365 and its remainder split it back: into the year and the day for a non-negative year or day 0, and into the year plus one and the day minus 365 for a negative year with a day of 1 or more. |
| `Gregorian.AsDaysIsStandardDayCount` | time/src/date/gregorian.rs:106-109 | `as_days` equals `to_standard().days`, and neither depends on the month: two dates that differ only in the month have the same count. |
| `Gregorian.DateFromStandard` | time/src/date/gregorian.rs:70-79 | The year is the number of whole 365-day years in the count, truncated toward zero. The day is the leftover modulo 256. For a non-negative count, the stored month is the leftover modulo 12. For a negative count it is minus the leftover's magnitude modulo 12, cast to `u8`. |
| `Gregorian.DateFromStandardNegativeMonth` | time/src/date/gregorian.rs:74-76 | From a negative count the stored month is 0 or in 245..=255, so `month()` is 1 or out of range. |
| `Gregorian.DateFromStandardMonthInRange` | time/src/date/gregorian.rs:74-76 | From a non-negative count the stored month is 0..=11, so `month()` is 1..=12. |
| `Gregorian.DateFromStandardOfMinusOne` | time/src/date/gregorian.rs:74-76 | Day -1 becomes year 0 with stored month 255 and day 255. Its `month()` would overflow. |
| `Gregorian.DateFromStandardRecoversYearAndDay` | time/src/date/gregorian.rs:61-79 | For a date with a non-negative year, or with day 0, the trip through the standard day count keeps the year and day. The stored month becomes the day modulo 12. |
| `Gregorian.NegativeYearMovesTowardZero` | time/src/date/gregorian.rs:61-79 | A date with a negative year and a day of 1 or more comes back from the trip through the standard day count with the year one closer to zero and the day 109 less modulo 256. For example (-1, 0, 1) comes back with year 0 and day 148. |
| `Gregorian.StandardRoundTrip` | time/src/date/gregorian.rs:61-79 | A non-negative day count whose remainder by 365 is below 256 comes back unchanged from `from_standard` followed by `to_standard`. |
| `Gregorian.StandardRoundTripLosesHighRemainders` | time/src/date/gregorian.rs:61-79 | A non-negative day count whose remainder by 365 is 256 or more comes back exactly 256 days short. |
| `Gregorian.StandardRoundTripOfNegative` | time/src/date/gregorian.rs:61-79 | A negative day count comes back unchanged when it is a whole number of 365-day years. Otherwise it comes back 256 days later when its truncated remainder by 365 is in -256..=-1, and 512 days later below that. For example -1 comes back as 255. |
| `RustInt.AsU8OfNegative` | time/src/date/gregorian.rs:76 | `as u8` adds 256 to a value in -256..=-1 and 512 to a value in -512..=-257. |
| `Gregorian.Shifted` | time/src/date/gregorian.rs:100-104 | The state after `add_days`: the month is unchanged, and the year and day do not decrease for a non-negative shift. When the truncated remainder by 365 is in 0..=255, the year and day together move by exactly the number of days added. When it is 256 or more, they move by 256 days fewer. When it is in -256..=-1 they move by 256 days more, and below -256 by 512 days more. |
| `Gregorian.AddDays` | time/src/date/gregorian.rs:100-104 | The year grows by the truncated quotient by 365, and the day by the truncated remainder cast to `u8`. The month is unchanged. When that remainder is in 0..=255, the year and day change together by exactly the number of days added. |
| `Gregorian.AddDaysShiftsDayCount` | time/src/date/gregorian.rs:100-109 | Adding a non-negative number of days whose remainder by 365 is below 256 raises `as_days` by exactly that number. |
| `Gregorian.AddDaysMinusOne` | time/src/date/gregorian.rs:100-104 | Adding -1 days to a date on day 0 keeps the year and sets the day to 255. |
| `Gregorian.GregorianConversions` | time/src/calendar.rs:76-88 | `GregorianDate`'s calendar instance. `to_standard` is defined exactly on the dates whose day count fits in `i128` and there it is the `From<&GregorianDate>` conversion. `from_standard` is total and is the `From<StandardCalendar>` conversion. |
| `Gregorian.ConvertToGregorian` | time/src/calendar.rs:66-68 | For a Gregorian date with a non-negative year, or with day 0, `convert_to::<GregorianDate>` keeps the year and day and sets the stored month to the day modulo 12. |
| `Gregorian.GregorianDoesNotRoundTrip` | time/src/calendar.rs:66-68 | The Gregorian conversions do not round-trip. `convert_to::<GregorianDate>` sends 22 April 2008 to stored month 10. |

## Left out

- The `dbg!` call in `from_parts` (time/src/date/gregorian.rs:44) writes to standard error and does not affect the result.
- Release-build wrap-around is not modelled. Each overflow that panics in a debug build is a precondition instead. In a release build `from_parts` would return `InvalidDay(0)` for day 0 with a valid month.
- Gregorian.FromParts: day 0 with a valid month is excluded by its precondition, because `day - 1` on a `u8` panics there.
- Gregorian.Month: a stored month of 255 is excluded by its precondition, because `month + 1` on a `u8` panics there.
- Gregorian.AddDays: inputs whose year or day addition would overflow are excluded by its precondition.
- Gregorian.StandardFromDate and Gregorian.AsDays: dates whose `year * 365 + day` leaves the `i128` range are excluded by their preconditions.
- The `Calendar` trait's own methods and associated types (time/src/calendar.rs:25-62) are signatures without bodies. They are modelled through their one implementation, `GregorianDate`. The trait's `type Year`, which the Gregorian impl omits, is the `i128` of time/src/lib.rs.
- Rust trait dispatch and coherence are not modelled. A calendar type is passed explicitly as its pair of conversions.
- The derived `Debug`, `Clone` and `Copy` impls are not modelled.
- The `timeline` crate (its event record, its calendar trait, and an earlier draft of the same formulas) is not part of this model. It is not reachable from the `time` crate.
