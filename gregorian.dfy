/**
 * Dates in the proleptic Gregorian calendar: the validating constructor, the day-count
 * tables, the leap-year rule, the accessors, the reference date, and the conversions
 * to and from the standard day count.
 *
 * The day-count conversions and day arithmetic are the crate's interim formulas: a date
 * counts as `year * 365 + day` days, the month plays no part, and the way back divides
 * by 365. The lemmas below state what those formulas do, including where they lose
 * information.
 */
module Gregorian {
  import opened RustInt
  import opened Calendar

  /** A Gregorian date; `month` is stored zero-based (0 is January), `day` as given. */
  datatype GregorianDate = GregorianDate(year: I128, month: U8, day: U8)

  /** Why `FromParts` rejected its input. */
  datatype DateCreationError = InvalidMonth(month: U8) | InvalidDay(day: U8)

  datatype Result<T> = Ok(value: T) | Err(error: DateCreationError)

  /** Days in each month of a common year, January first. */
  const REG_DAYS_IN_MONTH: seq<U8> := [31, 28, 31, 30, 31, 30, 31, 31, 30, 31, 30, 31]

  /** Days in each month of a leap year, January first. */
  const LEAP_DAYS_IN_MONTH: seq<U8> := [31, 29, 31, 30, 31, 30, 31, 31, 30, 31, 30, 31]

  function Sum(s: seq<int>): (total: int)
  {
    if s == [] then 0 else s[0] + Sum(s[1..])
  }

  /** The two tables differ only in February, and every month has 28 to 31 days. */
  lemma TablesAgreeExceptFebruary()
    ensures |REG_DAYS_IN_MONTH| == 12 && |LEAP_DAYS_IN_MONTH| == 12
    ensures forall i :: 0 <= i < 12 && i != 1 ==> REG_DAYS_IN_MONTH[i] == LEAP_DAYS_IN_MONTH[i]
    ensures REG_DAYS_IN_MONTH[1] == 28 && LEAP_DAYS_IN_MONTH[1] == 29
    ensures forall i :: 0 <= i < 12 ==> 28 <= REG_DAYS_IN_MONTH[i] <= 31 && 28 <= LEAP_DAYS_IN_MONTH[i] <= 31
  {
  }

  /** Changing one entry changes the sum by the difference. */
  lemma {:induction false} SumOfUpdate(s: seq<int>, i: nat, v: int)
    requires i < |s|
    ensures Sum(s[i := v]) == Sum(s) - s[i] + v
  {
    if i == 0 {
      assert s[i := v][1..] == s[1..];
    } else {
      SumOfUpdate(s[1..], i - 1, v);
      assert s[i := v][1..] == s[1..][i - 1 := v];
    }
  }

  /** The leap table is the regular one with February lengthened by a day, so a leap year is one day longer. */
  lemma {:induction false} LeapTableAddsOneDay()
    ensures LEAP_DAYS_IN_MONTH == REG_DAYS_IN_MONTH[1 := 29]
    ensures Sum(LEAP_DAYS_IN_MONTH) == Sum(REG_DAYS_IN_MONTH) + 1
  {
    SumOfUpdate(REG_DAYS_IN_MONTH, 1, 29);
  }

  /** A common year has 365 days and a leap year 366. */
  lemma {:induction false} TableTotals()
    ensures Sum(REG_DAYS_IN_MONTH) == 365
    ensures Sum(LEAP_DAYS_IN_MONTH) == 366
  {
    var tail := [31, 30, 31, 30, 31, 31, 30, 31, 30, 31];
    assert Sum(tail) == 306 by { SumOfTail(); }
    assert REG_DAYS_IN_MONTH[1..][1..] == tail && LEAP_DAYS_IN_MONTH[1..][1..] == tail;
    assert Sum(REG_DAYS_IN_MONTH[1..]) == 28 + Sum(tail);
    assert Sum(LEAP_DAYS_IN_MONTH[1..]) == 29 + Sum(tail);
  }

  lemma SumOfTail()
    ensures Sum([31, 30, 31, 30, 31, 31, 30, 31, 30, 31]) == 306
  {
    var s := [31, 30, 31, 30, 31, 31, 30, 31, 30, 31];
    assert s[1..] == [30, 31, 30, 31, 31, 30, 31, 30, 31];
    assert s[1..][1..] == [31, 30, 31, 31, 30, 31, 30, 31];
    assert s[1..][1..][1..] == [30, 31, 31, 30, 31, 30, 31];
    assert s[1..][1..][1..][1..] == [31, 31, 30, 31, 30, 31];
    assert s[1..][1..][1..][1..][1..] == [31, 30, 31, 30, 31];
    assert s[1..][1..][1..][1..][1..][1..] == [30, 31, 30, 31];
    assert s[1..][1..][1..][1..][1..][1..][1..] == [31, 30, 31];
    assert s[1..][1..][1..][1..][1..][1..][1..][1..] == [30, 31];
    assert s[1..][1..][1..][1..][1..][1..][1..][1..][1..] == [31];
    assert s[1..][1..][1..][1..][1..][1..][1..][1..][1..][1..] == [];
  }

  /**
   * `is_leap_year`: the proleptic Gregorian rule on the raw signed year, computed with
   * Rust's truncating `%`; it agrees with the same rule stated with Euclidean remainders.
   */
  function IsLeapYear(year: I128): (leap: bool)
    ensures leap <==> year % 4 == 0 && (year % 400 == 0 || year % 100 != 0)
  {
    Rem(year, 4) == 0 && (Rem(year, 400) == 0 || Rem(year, 100) != 0)
  }

  /** The examples the crate documents for `is_leap_year`. */
  lemma LeapYearExamples()
    ensures IsLeapYear(2020) && IsLeapYear(2000)
    ensures !IsLeapYear(1900) && !IsLeapYear(2017) && !IsLeapYear(2018)
  {
  }

  /** Negating the year does not change whether it is a leap year. */
  lemma {:induction false} LeapYearIsSymmetric(year: I128)
    requires year > -0x8000_0000_0000_0000_0000_0000_0000_0000
    ensures IsLeapYear(-year) == IsLeapYear(year)
  {
    ZeroRemainderIsSymmetric(year, 4);
    ZeroRemainderIsSymmetric(year, 100);
    ZeroRemainderIsSymmetric(year, 400);
  }

  /** Leap years repeat every 400 years. */
  lemma {:induction false} LeapYearsRepeatEvery400(year: I128)
    requires InI128(year + 400)
    ensures IsLeapYear(year + 400) == IsLeapYear(year)
  {
    RemainderOfShift(year, 4, 100);
    RemainderOfShift(year, 100, 4);
    RemainderOfShift(year, 400, 1);
  }

  /** How many of the `count` years from `start` on are leap years. */
  function LeapYearsIn(start: int, count: nat): (n: nat)
    requires InI128(start) && InI128(start + count)
    decreases count
  {
    if count == 0 then 0
    else (if IsLeapYear(start) then 1 else 0) + LeapYearsIn(start + 1, count - 1)
  }

  /** Counting over consecutive spans adds up. */
  lemma {:induction false} LeapYearsInSplit(start: int, a: nat, b: nat)
    requires InI128(start) && InI128(start + a + b)
    ensures LeapYearsIn(start, a + b) == LeapYearsIn(start, a) + LeapYearsIn(start + a, b)
    decreases a
  {
    if a > 0 {
      LeapYearsInSplit(start + 1, a - 1, b);
    }
  }

  /** Four years from a multiple of 4 hold one leap year if the first is one, and none otherwise. */
  lemma {:induction false} LeapYearsInFour(start: int)
    requires InI128(start) && InI128(start + 4) && start % 4 == 0
    ensures LeapYearsIn(start, 4) == if IsLeapYear(start) then 1 else 0
  {
    assert !IsLeapYear(start + 1) && !IsLeapYear(start + 2) && !IsLeapYear(start + 3);
    assert LeapYearsIn(start + 3, 1) == 0;
    assert LeapYearsIn(start + 2, 2) == 0;
    assert LeapYearsIn(start + 1, 3) == 0;
  }

  /** The first `4 * j` years from a year 4 past a century start hold `j` leap years, for up to 24 blocks. */
  lemma {:induction false} LeapYearsInQuadrennia(start: int, j: nat)
    requires InI128(start) && InI128(start + 4 * j) && start % 100 == 4 && j <= 24
    ensures LeapYearsIn(start, 4 * j) == j
    decreases j
  {
    if j > 0 {
      var last := start + 4 * (j - 1);
      LeapYearsInQuadrennia(start, j - 1);
      LeapYearsInSplit(start, 4 * (j - 1), 4);
      DivModUnique(last, 100, start / 100, 4 * j);
      DivModUnique(last, 4, 25 * (start / 100) + j, 0);
      LeapYearsInFour(last);
    }
  }

  /** A century from a year divisible by 100 holds 24 leap years, plus one when its first year is a leap year. */
  lemma {:induction false} LeapYearsInCentury(start: int)
    requires InI128(start) && InI128(start + 100) && start % 100 == 0
    ensures LeapYearsIn(start, 100) == 24 + if IsLeapYear(start) then 1 else 0
  {
    DivModUnique(start, 4, 25 * (start / 100), 0);
    LeapYearsInFour(start);
    LeapYearsInSplit(start, 4, 96);
    DivModUnique(start + 4, 100, start / 100, 4);
    LeapYearsInQuadrennia(start + 4, 24);
  }

  /** In a cycle from a multiple of 400, the four centuries start on whole centuries, and only the first on a leap year. */
  lemma CenturyStarts(start: int)
    requires InI128(start) && InI128(start + 400) && start % 400 == 0
    ensures start % 100 == 0 && (start + 100) % 100 == 0 && (start + 200) % 100 == 0 && (start + 300) % 100 == 0
    ensures IsLeapYear(start) && !IsLeapYear(start + 100) && !IsLeapYear(start + 200) && !IsLeapYear(start + 300)
  {
    var k := start / 400;
    DivModUnique(start, 4, 100 * k, 0);
    DivModUnique(start, 100, 4 * k, 0);
    DivModUnique(start + 100, 100, 4 * k + 1, 0);
    DivModUnique(start + 200, 100, 4 * k + 2, 0);
    DivModUnique(start + 300, 100, 4 * k + 3, 0);
    DivModUnique(start + 100, 400, k, 100);
    DivModUnique(start + 200, 400, k, 200);
    DivModUnique(start + 300, 400, k, 300);
  }

  /** Four centuries from a multiple of 400 hold 97 leap years. */
  lemma {:induction false} LeapYearsInAlignedCycle(start: int)
    requires InI128(start) && InI128(start + 400) && start % 400 == 0
    ensures LeapYearsIn(start, 400) == 97
  {
    CenturyStarts(start);
    LeapYearsInCentury(start);
    LeapYearsInCentury(start + 100);
    LeapYearsInCentury(start + 200);
    LeapYearsInCentury(start + 300);
    LeapYearsInSplit(start + 200, 100, 100);
    LeapYearsInSplit(start + 100, 100, 200);
    LeapYearsInSplit(start, 100, 300);
  }

  /** Sliding a 400-year window by one year keeps its number of leap years. */
  lemma {:induction false} LeapYearsInSlide(start: int)
    requires InI128(start) && InI128(start + 401)
    ensures LeapYearsIn(start + 1, 400) == LeapYearsIn(start, 400)
  {
    LeapYearsInSplit(start + 1, 399, 1);
    LeapYearsRepeatEvery400(start);
  }

  /** A 400-year window holding 97 leap years keeps that count as it slides forward to `start`. */
  lemma {:induction false} SlideForwardKeeps97(from: int, start: int)
    requires from <= start && InI128(from) && InI128(start + 400)
    requires LeapYearsIn(from, 400) == 97
    ensures LeapYearsIn(start, 400) == 97
  {
    var i := from;
    while i < start
      invariant from <= i <= start
      invariant LeapYearsIn(i, 400) == 97
    {
      assert InI128(i + 401);
      LeapYearsInSlide(i);
      i := i + 1;
    }
  }

  /** A 400-year window holding 97 leap years keeps that count as it slides backward to `start`. */
  lemma {:induction false} SlideBackwardKeeps97(from: int, start: int)
    requires start <= from && InI128(start) && InI128(from + 400)
    requires LeapYearsIn(from, 400) == 97
    ensures LeapYearsIn(start, 400) == 97
  {
    var j := from;
    while j > start
      invariant start <= j <= from
      invariant LeapYearsIn(j, 400) == 97
    {
      assert InI128(j - 1) && InI128(j + 400);
      LeapYearsInSlide(j - 1);
      j := j - 1;
    }
  }

  /** Any 400 consecutive years within `i128` hold exactly 97 leap years. */
  lemma {:induction false} LeapYearsPer400(start: int)
    requires InI128(start) && InI128(start + 400)
    ensures LeapYearsIn(start, 400) == 97
  {
    var below := start - start % 400;
    assert below % 400 == 0 && start - 400 < below <= start;
    if InI128(below) {
      LeapYearsInAlignedCycle(below);
      SlideForwardKeeps97(below, start);
    } else {
      // near the bottom of the range the cycle below `start` is out of range: use the one above
      var above := below + 400;
      assert above % 400 == 0 by { RemainderOfShift(below, 400, 1); }
      LeapYearsInAlignedCycle(above);
      SlideBackwardKeeps97(above, start);
    }
  }

  /** The table `from_parts` selects: the leap table in a leap year, the regular one otherwise. */
  function MonthTable(leap: bool): (table: seq<U8>)
    ensures |table| == 12
  {
    if leap then LEAP_DAYS_IN_MONTH else REG_DAYS_IN_MONTH
  }

  /** The length of a month (1 is January) by the usual rule, independent of the tables. */
  function DaysInMonth(leap: bool, month: int): (days: int)
    requires 1 <= month <= 12
  {
    if month == 2 then (if leap then 29 else 28)
    else if month == 4 || month == 6 || month == 9 || month == 11 then 30
    else 31
  }

  /** The selected table agrees with the usual rule for every month. */
  lemma {:induction false} MonthTableFollowsRule(leap: bool, month: int)
    requires 1 <= month <= 12
    ensures MonthTable(leap)[month - 1] == DaysInMonth(leap, month)
  {
    var table := MonthTable(leap);
    var i := month - 1;
    if i == 0 || i == 2 || i == 4 || i == 6 || i == 7 || i == 9 || i == 11 {
      assert table[i] == 31;
    } else if i == 1 {
      assert table[i] == if leap then 29 else 28;
    } else {
      assert table[i] == 30;
    }
  }

  /** Whether (year, month, day), month counted from 1, names a day of the Gregorian calendar. */
  predicate IsValidDate(year: I128, month: int, day: int)
  {
    1 <= month <= 12 && 1 <= day <= DaysInMonth(IsLeapYear(year), month)
  }

  /**
   * `from_parts`: rejects a month outside 1..=12 first, then a day outside the month's
   * range for that year; the year is never rejected. The month is stored zero-based.
   * A day of 0 with a valid month makes `day - 1` overflow its `u8`, so it is excluded.
   */
  function FromParts(year: I128, month: U8, day: U8): (r: Result<GregorianDate>)
    requires 1 <= month <= 12 ==> day >= 1
    ensures r.Ok? <==> IsValidDate(year, month, day)
    ensures r.Ok? ==> r.value.year == year && r.value.month == month - 1 && r.value.day == day
    ensures r.Err? && !(1 <= month <= 12) ==> r.error == InvalidMonth(month)
    ensures r.Err? && 1 <= month <= 12 ==> r.error == InvalidDay(day)
  {
    if !(1 <= month <= 12) then
      Err(InvalidMonth(month))
    else
      var m := month - 1;
      var leap := IsLeapYear(year);
      var daysInMonth := MonthTable(leap);
      MonthTableFollowsRule(leap, month);
      var dayIndex := day - 1;
      if !(0 <= dayIndex < daysInMonth[m]) then
        Err(InvalidDay(day))
      else
        Ok(GregorianDate(year, m, day))
  }

  /** `day()`: the stored day, as given to `from_parts`. */
  function Day(date: GregorianDate): (r: U8)
    ensures r == date.day
  {
    date.day
  }

  /** `year()`: the stored year, as given to `from_parts`. */
  function Year(date: GregorianDate): (r: I128)
    ensures r == date.year
  {
    date.year
  }

  /** `month()`: the stored month plus one; the `u8` addition overflows for a stored 255. */
  function Month(date: GregorianDate): (r: U8)
    requires date.month < 255
    ensures r >= 1 && r - 1 == date.month
    ensures date.month < 12 <==> 1 <= r <= 12
  {
    date.month + 1
  }

  /** A date built by `FromParts` gives back through the accessors exactly the parts it was built from. */
  lemma AccessorsRoundTrip(year: I128, month: U8, day: U8)
    requires 1 <= month <= 12 ==> day >= 1
    requires FromParts(year, month, day).Ok?
    ensures FromParts(year, month, day).value.month < 255
    ensures Year(FromParts(year, month, day).value) == year
    ensures Month(FromParts(year, month, day).value) == month
    ensures Day(FromParts(year, month, day).value) == day
  {
  }

  /** The examples the crate documents for `from_parts`. */
  lemma FromPartsExamples()
    ensures FromParts(2008, 4, 22).Ok?
    ensures Year(FromParts(2008, 4, 22).value) == 2008
    ensures Month(FromParts(2008, 4, 22).value) == 4
    ensures Day(FromParts(2008, 4, 22).value) == 22
    ensures FromParts(2020, 2, 29).Ok?
    ensures FromParts(1900, 2, 29) == Err(InvalidDay(29))
    ensures FromParts(2000, 2, 29).Ok?
  {
  }

  /** `reference_date`: year 1, January, stored day 0. */
  function ReferenceDate(): (r: GregorianDate)
    ensures r.month < 255 && Year(r) == 1 && Month(r) == 1 && Day(r) == 0
  {
    GregorianDate(1, 0, 0)
  }

  /** The reference date has day 0, which `FromParts` never accepts. */
  lemma ReferenceDateIsNotConstructible(year: I128, month: U8, day: U8)
    requires 1 <= month <= 12 ==> day >= 1
    ensures FromParts(year, month, day) != Ok(ReferenceDate())
  {
  }

  /** The reference date counts as day 365 of the standard calendar, not day 0. */
  lemma ReferenceDateIsDay365()
    ensures DayCountFits(ReferenceDate())
    ensures StandardFromDate(ReferenceDate()).days == 365
  {
  }

  /** Whether `year * 365 + day` stays within `i128` (a debug build panics otherwise). */
  predicate DayCountFits(date: GregorianDate)
  {
    InI128(date.year * 365) && InI128(date.year * 365 + date.day)
  }

  /** `From<&GregorianDate> for StandardCalendar`: 365 days per year plus the stored day; the month is ignored. */
  function StandardFromDate(date: GregorianDate): (s: StandardCalendar)
    requires DayCountFits(date)
    ensures s.days == AsDays(date)
  {
    StandardCalendar(date.year * 365 + date.day)
  }

  /**
   * `as_days`: whole 365-day years plus the stored day, ignoring the month. Truncating
   * division by 365 splits the count back into that year and day for a non-negative year
   * or day 0; for a negative year and a later day it gives the year one closer to zero
   * and the day minus 365.
   */
  function AsDays(date: GregorianDate): (n: I128)
    requires DayCountFits(date)
    ensures 365 * date.year <= n < 365 * date.year + 256
    ensures date.year >= 0 ==> Quot(n, 365) == date.year && Rem(n, 365) == date.day
    ensures date.year < 0 && date.day >= 1 ==> Quot(n, 365) == date.year + 1 && Rem(n, 365) == date.day - 365
    ensures date.year < 0 && date.day == 0 ==> Quot(n, 365) == date.year && Rem(n, 365) == 0
  {
    var n := date.year * 365 + date.day;
    if date.year >= 0 then
      QuotRemOfMultiplePlus(date.year, 365, date.day);
      n
    else if date.day >= 1 then
      QuotRemOfMultiplePlus(-date.year - 1, 365, 365 - date.day);
      QuotOfNegation(n, 365);
      n
    else
      QuotRemOfMultiplePlus(-date.year, 365, 0);
      QuotOfNegation(n, 365);
      n
  }

  /** `as_days` and `to_standard` agree, and neither depends on the month. */
  lemma AsDaysIsStandardDayCount(date: GregorianDate, month: U8)
    requires DayCountFits(date)
    ensures AsDays(date) == StandardFromDate(date).days
    ensures StandardFromDate(date.(month := month)) == StandardFromDate(date)
  {
  }

  /**
   * `From<StandardCalendar> for GregorianDate`: the year is the truncated quotient by 365,
   * the day is the truncated remainder cast to `u8`, and the stored month is that
   * remainder's truncated remainder by 12, cast to `u8`.
   */
  function DateFromStandard(standard: StandardCalendar): (r: GregorianDate)
    ensures standard.days >= 0 ==> 365 * r.year <= standard.days < 365 * r.year + 365
    ensures standard.days < 0 ==> 365 * r.year - 365 < standard.days <= 365 * r.year
    ensures r.day == (standard.days - 365 * r.year) % 256
    ensures standard.days >= 0 ==> r.month == ((standard.days - 365 * r.year) % 12)
    ensures standard.days < 0 ==> r.month == (-((365 * r.year - standard.days) % 12)) % 256
  {
    var remainder := Rem(standard.days, 365);
    GregorianDate(Quot(standard.days, 365), AsU8(Rem(remainder, 12)), AsU8(remainder))
  }

  /** From a non-negative day count the stored month is 0..=11, so `month()` is 1..=12. */
  lemma {:induction false} DateFromStandardMonthInRange(standard: StandardCalendar)
    requires standard.days >= 0
    ensures DateFromStandard(standard).month < 12
    ensures 1 <= Month(DateFromStandard(standard)) <= 12
  {
    var r := DateFromStandard(standard);
    assert 0 <= standard.days - 365 * r.year;
  }

  /** From a negative day count the stored month is 0 or one of 245..=255, so `month()` is 1 or out of range. */
  lemma {:induction false} DateFromStandardNegativeMonth(standard: StandardCalendar)
    requires standard.days < 0
    ensures DateFromStandard(standard).month == 0 || 245 <= DateFromStandard(standard).month <= 255
  {
    var r := DateFromStandard(standard);
    var t := 365 * r.year - standard.days;
    assert 0 <= t % 12 < 12;
    if t % 12 != 0 {
      assert r.month == 256 - t % 12 by {
        DivModUnique(-(t % 12), 256, -1, 256 - t % 12);
      }
    }
  }

  /** Day -1 becomes year 0 with stored month and day 255, whose `month()` overflows. */
  lemma DateFromStandardOfMinusOne()
    ensures DateFromStandard(New(-1)) == GregorianDate(0, 255, 255)
  {
    RemOfSmall(-1, 365);
    RemOfSmall(-1, 12);
  }

  /**
   * Through the standard calendar and back, a date with a non-negative year (or day 0)
   * keeps its year and day, and its stored month becomes the day modulo 12.
   */
  lemma {:induction false} DateFromStandardRecoversYearAndDay(date: GregorianDate)
    requires DayCountFits(date)
    requires date.year >= 0 || date.day == 0
    ensures DateFromStandard(StandardFromDate(date)) == GregorianDate(date.year, date.day % 12, date.day)
  {
    var days := date.year * 365 + date.day;
    if date.year >= 0 {
      QuotRemOfMultiplePlus(date.year, 365, date.day);
    } else {
      QuotRemOfMultiplePlus(-date.year, 365, 0);
      QuotOfNegation(days, 365);
    }
    assert Quot(days, 365) == date.year && Rem(days, 365) == date.day;
  }

  /**
   * Through the standard calendar and back, a date with a negative year and a day of 1
   * or more comes back one year closer to zero, because the quotient truncates toward zero.
   */
  lemma {:induction false} NegativeYearMovesTowardZero(date: GregorianDate)
    requires DayCountFits(date)
    requires date.year < 0 && date.day >= 1
    ensures DateFromStandard(StandardFromDate(date)).year == date.year + 1
    ensures DateFromStandard(StandardFromDate(date)).day == (date.day - 365) % 256
  {
    var days := date.year * 365 + date.day;
    QuotRemOfMultiplePlus(-date.year - 1, 365, 365 - date.day);
    QuotOfNegation(days, 365);
  }

  /**
   * A non-negative day count whose remainder by 365 fits a `u8` survives the trip out of
   * the standard calendar and back.
   */
  lemma {:induction false} StandardRoundTrip(standard: StandardCalendar)
    requires standard.days >= 0 && standard.days % 365 < 256
    ensures DayCountFits(DateFromStandard(standard))
    ensures StandardFromDate(DateFromStandard(standard)) == standard
  {
    var r := DateFromStandard(standard);
    assert standard.days - 365 * r.year == standard.days % 365 by {
      QuotRemOfMultiplePlus(r.year, 365, standard.days - 365 * r.year);
    }
  }

  /**
   * A non-negative day count whose remainder by 365 is 256 or more comes back 256 days
   * short, because the day is cast to `u8`.
   */
  lemma {:induction false} StandardRoundTripLosesHighRemainders(standard: StandardCalendar)
    requires standard.days >= 0 && standard.days % 365 >= 256
    ensures DayCountFits(DateFromStandard(standard))
    ensures StandardFromDate(DateFromStandard(standard)).days == standard.days - 256
  {
    var r := DateFromStandard(standard);
    assert standard.days - 365 * r.year == standard.days % 365 by {
      QuotRemOfMultiplePlus(r.year, 365, standard.days - 365 * r.year);
    }
  }

  /**
   * A negative day count comes back unchanged from `from_standard` followed by
   * `to_standard` only when it is a whole number of 365-day years. Otherwise the
   * negative remainder is cast to `u8` and the count comes back 256 or 512 days later.
   */
  lemma {:induction false} StandardRoundTripOfNegative(standard: StandardCalendar)
    requires standard.days < 0
    ensures DayCountFits(DateFromStandard(standard))
    ensures Rem(standard.days, 365) == 0 ==> StandardFromDate(DateFromStandard(standard)) == standard
    ensures -256 <= Rem(standard.days, 365) < 0 ==> StandardFromDate(DateFromStandard(standard)).days == standard.days + 256
    ensures Rem(standard.days, 365) < -256 ==> StandardFromDate(DateFromStandard(standard)).days == standard.days + 512
  {
    AsU8OfNegative(Rem(standard.days, 365));
  }

  /**
   * The date `add_days` leaves behind: the year grows by the truncated quotient by 365,
   * the day by the truncated remainder cast to `u8`, and the month stays.
   */
  function Shifted(date: GregorianDate, days: I128): (r: GregorianDate)
    requires InI128(date.year + Quot(days, 365))
    requires date.day + AsU8(Rem(days, 365)) < 256
    ensures r.month == date.month
    ensures days >= 0 ==> r.year >= date.year && r.day >= date.day
    ensures 0 <= Rem(days, 365) < 256 ==> 365 * (r.year - date.year) + (r.day - date.day) == days
    ensures 256 <= Rem(days, 365) ==> 365 * (r.year - date.year) + (r.day - date.day) == days - 256
    ensures -256 <= Rem(days, 365) < 0 ==> 365 * (r.year - date.year) + (r.day - date.day) == days + 256
    ensures Rem(days, 365) < -256 ==> 365 * (r.year - date.year) + (r.day - date.day) == days + 512
  {
    AsU8OfNegative(Rem(days, 365));
    GregorianDate(date.year + Quot(days, 365), date.month, date.day + AsU8(Rem(days, 365)))
  }

  /**
   * `add_days(&mut self, days)`: updates the year and then the day in place. Both
   * additions must not overflow (`i128` for the year, `u8` for the day).
   */
  method AddDays(date: GregorianDate, days: I128) returns (updated: GregorianDate)
    requires InI128(date.year + Quot(days, 365))
    requires date.day + AsU8(Rem(days, 365)) < 256
    ensures updated == Shifted(date, days)
    ensures updated.month == date.month
    ensures 0 <= Rem(days, 365) < 256 ==> 365 * (updated.year - date.year) + (updated.day - date.day) == days
  {
    updated := date;
    updated := updated.(year := updated.year + Quot(days, 365));
    updated := updated.(day := updated.day + AsU8(Rem(days, 365)));
  }

  /**
   * Adding a non-negative number of days whose remainder by 365 fits a `u8` moves the
   * day count by exactly that number.
   */
  lemma {:induction false} AddDaysShiftsDayCount(date: GregorianDate, days: I128)
    requires InI128(date.year + Quot(days, 365))
    requires date.day + AsU8(Rem(days, 365)) < 256
    requires DayCountFits(date) && DayCountFits(Shifted(date, days))
    requires days >= 0 && days % 365 < 256
    ensures AsDays(Shifted(date, days)) == AsDays(date) + days
  {
    assert Rem(days, 365) == days % 365;
    assert days == 365 * Quot(days, 365) + Rem(days, 365);
  }

  /** Adding -1 days to a date on day 0 keeps the year and moves the day forward to 255. */
  lemma AddDaysMinusOne(date: GregorianDate)
    requires date.day == 0
    ensures Shifted(date, -1) == date.(day := 255)
  {
    RemOfSmall(-1, 365);
  }

  /** The Gregorian calendar's two conversions, as the calendar contract uses them. */
  function GregorianConversions(): (c: Conversions<GregorianDate>)
    ensures forall date :: c.into.requires(date) <==> DayCountFits(date)
    ensures forall date | DayCountFits(date) :: c.into(date) == StandardFromDate(date)
    ensures forall s :: c.from.requires(s) && c.from(s) == DateFromStandard(s)
  {
    Conversions(StandardFromDate, DateFromStandard)
  }

  /**
   * `convert_to::<GregorianDate>` on a Gregorian date with a non-negative year keeps the
   * year and day and replaces the stored month by the day modulo 12.
   */
  lemma {:induction false} ConvertToGregorian(date: GregorianDate)
    requires DayCountFits(date)
    requires date.year >= 0 || date.day == 0
    ensures ConvertTo(GregorianConversions(), GregorianConversions(), date)
            == GregorianDate(date.year, date.day % 12, date.day)
  {
    DateFromStandardRecoversYearAndDay(date);
  }

  /** The Gregorian conversions do not round-trip, so `convert_to::<Self>` is not the identity. */
  lemma {:induction false} GregorianDoesNotRoundTrip()
    ensures !RoundTrips(GregorianConversions())
    ensures ConvertTo(GregorianConversions(), GregorianConversions(), GregorianDate(2008, 3, 22))
            == GregorianDate(2008, 10, 22)
  {
    var date := GregorianDate(2008, 3, 22);
    ConvertToGregorian(date);
    assert GregorianConversions().from(GregorianConversions().into(date)) != date;
  }
}
