/** Day numbers since 1970-01-01 and proleptic Gregorian dates, in both directions. */
module CivilDates {
  import opened Machine
  import opened Wrappers

  datatype Date = Date(year: int, month: int, day: int)

  // ---------------------------------------------------------------- the calendar

  predicate IsLeap(y: int) {
    y % 4 == 0 && (y % 100 != 0 || y % 400 == 0)
  }

  function MonthLength(y: int, m: int): int {
    if m == 2 then (if IsLeap(y) then 29 else 28)
    else if m in {4, 6, 9, 11} then 30
    else 31
  }

  predicate Valid(d: Date) {
    1 <= d.month <= 12 && 1 <= d.day <= MonthLength(d.year, d.month)
  }

  /** The day after `d` in the Gregorian calendar. */
  function Next(d: Date): Date {
    if d.day < MonthLength(d.year, d.month) then Date(d.year, d.month, d.day + 1)
    else if d.month < 12 then Date(d.year, d.month + 1, 1)
    else Date(d.year + 1, 1, 1)
  }

  predicate Before(a: Date, b: Date) {
    a.year < b.year || (a.year == b.year && (a.month < b.month || (a.month == b.month && a.day < b.day)))
  }

  // ---------------------------------------------------------------- the conversions

  const EPOCH_SHIFT: I64 := 719_468

  /** Day within the 400-year era on which year `y` of the era, counted from March, starts. */
  function YearStart(y: int): int {
    365 * y + y / 4 - y / 100
  }

  function MonthStart(mp: int): int {
    (153 * mp + 2) / 5
  }

  function DaysFromCivil(year: I32, month: int, day: int): Option<int> {
    if !(1 <= month <= 12) || !(1 <= day <= 31) then None
    else
      var y := year - (if month <= 2 then 1 else 0);
      var era := TruncDiv(if y >= 0 then y else y - 399, 400);
      var yoe := y - era * 400;
      var doy := MonthStart(month + (if month > 2 then -3 else 9)) + day - 1;
      var doe := yoe * 365 + yoe / 4 - yoe / 100 + doy;
      Some(era * 146_097 + doe - EPOCH_SHIFT)
  }

  function DaysAdjusted(doe: int): int {
    doe - doe / 1_460 + doe / 36_524 - doe / 146_096
  }

  /** The date of the day `days` days after 0000-03-01. */
  function CivilFromShifted(days: int): Date {
    var era := TruncDiv(if days >= 0 then days else days - 146_096, 146_097);
    var doe := days - era * 146_097;
    var yoe := DaysAdjusted(doe) / 365;
    var doy := doe - (365 * yoe + yoe / 4 - yoe / 100);
    var mp := (5 * doy + 2) / 153;
    var day := doy - MonthStart(mp) + 1;
    var month := mp + (if mp < 10 then 3 else -9);
    var year := yoe + era * 400 + (if month <= 2 then 1 else 0);
    Date(year, month, day)
  }

  function CivilFromDays(days: I64): Date {
    CivilFromShifted(SatAddI64(days, EPOCH_SHIFT))
  }

  // ---------------------------------------------------------------- years of an era

  /** End of the March year `y` of the era: the last year of an era has its leap day. */
  function YearEnd(y: int): int {
    if y == 399 then 146_097 else YearStart(y + 1)
  }

  lemma AdjustedStart(y: int)
    requires 0 <= y < 400
    ensures 365 * y <= DaysAdjusted(YearStart(y))
  {
    var d := YearStart(y);
    assert y / 100 < 4 && d / 146_096 == 0;
    assert d / 36_524 >= y / 100;
    assert d / 1_460 <= y / 4;
  }

  lemma AdjustedEnd(y: int)
    requires 0 <= y < 400
    ensures DaysAdjusted(YearEnd(y) - 1) < 365 * (y + 1)
  {
    if y < 399 {
      var n, d := y + 1, YearEnd(y) - 1;
      assert d / 146_096 == 0;
      assert d / 36_524 <= n / 100;
      assert d / 1_460 >= n / 4;
    }
  }

  lemma AdjustedMonotone(a: int, b: int)
    requires 0 <= a <= b < 146_096
    ensures DaysAdjusted(a) <= DaysAdjusted(b)
  {
  }

  /** The corrected division finds the March year that contains the day. */
  lemma YearOfEra(doe: int, y: int)
    requires 0 <= y < 400 && YearStart(y) <= doe < YearEnd(y)
    ensures DaysAdjusted(doe) / 365 == y
  {
    AdjustedStart(y);
    AdjustedEnd(y);
    if doe < 146_096 {
      AdjustedMonotone(YearStart(y), doe);
      if YearEnd(y) <= 146_096 {
        AdjustedMonotone(doe, YearEnd(y) - 1);
      } else {
        AdjustedMonotone(doe, 146_095);
      }
    }
  }

  lemma YearContaining(doe: int) returns (y: int)
    requires 0 <= doe < 146_097
    ensures 0 <= y < 400 && YearStart(y) <= doe < YearEnd(y)
  {
    y := 0;
    while y < 399 && YearStart(y + 1) <= doe
      invariant 0 <= y < 400 && YearStart(y) <= doe
    {
      y := y + 1;
    }
  }

  lemma SameRemainder(a: int, y: int, m: int)
    requires m > 0
    ensures (a * m + y) % m == y % m
  {
    var q, r := y / m, y % m;
    assert a * m + y == (a + q) * m + r;
    RemainderIs(a + q, r, m);
  }

  lemma RemainderIs(q: int, r: int, m: int)
    requires 0 <= r < m
    ensures (q * m + r) % m == r
  {
    var n := q * m + r;
    var k := n / m - q;
    assert n == m * (n / m) + n % m;
    assert r - n % m == m * k;
    if k >= 1 { MulMonotone(m, 1, k); }
    if k <= -1 { MulMonotone(m, 1, -k); }
  }

  /** Leap years repeat every 400 years. */
  lemma LeapInEra(era: int, y: int)
    ensures IsLeap(era * 400 + y) <==> IsLeap(y)
  {
    SameRemainder(era, y, 400);
    SameRemainder(era * 4, y, 100);
    SameRemainder(era * 100, y, 4);
    assert era * 4 * 100 == era * 400 && era * 100 * 4 == era * 400;
  }

  lemma YearLength(era: int, y: int)
    requires 0 <= y < 400
    ensures YearEnd(y) - YearStart(y) == if IsLeap(era * 400 + y + 1) then 366 else 365
  {
    LeapInEra(era, y + 1);
    assert era * 400 + y + 1 == era * 400 + (y + 1);
    LengthInEra(y);
  }

  lemma LengthInEra(y: int)
    requires 0 <= y < 400
    ensures YearEnd(y) - YearStart(y) == if IsLeap(y + 1) then 366 else 365
  {
    assert (y + 1) / 4 - y / 4 == if (y + 1) % 4 == 0 then 1 else 0;
    assert (y + 1) / 100 - y / 100 == if (y + 1) % 100 == 0 then 1 else 0;
    assert (y + 1) % 400 == 0 <==> y == 399;
    assert (y + 1) % 100 == 0 ==> (y + 1) % 4 == 0;
  }

  lemma MonthContaining(doy: int)
    requires 0 <= doy <= 365
    ensures var mp := (5 * doy + 2) / 153; 0 <= mp < 12 && MonthStart(mp) <= doy < MonthStart(mp + 1)
  {
  }

  lemma MonthOfYear(mp: int, doy: int)
    requires 0 <= mp < 12 && MonthStart(mp) <= doy < MonthStart(mp + 1) && doy <= 365
    ensures (5 * doy + 2) / 153 == mp
  {
  }

  // ---------------------------------------------------------------- era, year and day of year

  /** A day given by its era, its March year in the era, and its day in that year. */
  predicate Parts(era: int, y: int, doy: int) {
    0 <= y < 400 && 0 <= doy < YearEnd(y) - YearStart(y)
  }

  function DateOfParts(era: int, y: int, doy: int): Date {
    var mp := (5 * doy + 2) / 153;
    var month := mp + (if mp < 10 then 3 else -9);
    Date(y + era * 400 + (if month <= 2 then 1 else 0), month, doy - MonthStart(mp) + 1)
  }

  function ShiftedOfParts(era: int, y: int, doy: int): int {
    era * 146_097 + YearStart(y) + doy
  }

  lemma EraIsFloor(x: int)
    ensures TruncDiv(if x >= 0 then x else x - 146_096, 146_097) == x / 146_097
    ensures TruncDiv(if x >= 0 then x else x - 399, 400) == x / 400
  {
  }

  lemma YearSpan(y: int)
    requires 0 <= y < 400
    ensures 0 <= YearStart(y) && YearEnd(y) <= 146_097 && 365 <= YearEnd(y) - YearStart(y) <= 366
  {
  }

  lemma EraOf(era: int, doe: int)
    requires 0 <= doe < 146_097
    ensures var days := era * 146_097 + doe; TruncDiv(if days >= 0 then days else days - 146_096, 146_097) == era
  {
    EraIsFloor(era * 146_097 + doe);
  }

  lemma CivilOfParts(era: int, y: int, doy: int, days: int)
    requires Parts(era, y, doy) && ShiftedOfParts(era, y, doy) == days
    ensures CivilFromShifted(days) == DateOfParts(era, y, doy)
  {
    YearSpan(y);
    EraOf(era, YearStart(y) + doy);
    YearOfEra(YearStart(y) + doy, y);
  }

  lemma PartsOfShifted(days: int) returns (era: int, y: int, doy: int)
    ensures Parts(era, y, doy) && ShiftedOfParts(era, y, doy) == days
  {
    era := days / 146_097;
    y := YearContaining(days % 146_097);
    doy := days % 146_097 - YearStart(y);
  }

  lemma DateOfPartsValid(era: int, y: int, doy: int)
    requires Parts(era, y, doy)
    ensures Valid(DateOfParts(era, y, doy))
  {
    YearSpan(y);
    YearLength(era, y);
    MonthContaining(doy);
  }

  lemma DaysOfParts(era: int, y: int, doy: int)
    requires Parts(era, y, doy) && I32_MIN <= DateOfParts(era, y, doy).year <= I32_MAX
    ensures var d := DateOfParts(era, y, doy);
            DaysFromCivil(d.year, d.month, d.day) == Some(ShiftedOfParts(era, y, doy) - EPOCH_SHIFT)
  {
    DateOfPartsValid(era, y, doy);
    EraIsFloor(y + era * 400);
    assert (y + era * 400) / 400 == era;
  }

  lemma PartsOfDate(d: Date) returns (era: int, y: int, doy: int)
    requires Valid(d)
    ensures Parts(era, y, doy) && DateOfParts(era, y, doy) == d
  {
    var march := d.year - (if d.month <= 2 then 1 else 0);
    var mp := d.month + (if d.month > 2 then -3 else 9);
    era, y, doy := march / 400, march % 400, MonthStart(mp) + d.day - 1;
    YearSpan(y);
    YearLength(era, y);
    MonthOfYear(mp, doy);
  }

  // ---------------------------------------------------------------- main results

  lemma CivilIsValid(days: I64)
    ensures Valid(CivilFromDays(days))
  {
    var era, y, doy := PartsOfShifted(SatAddI64(days, EPOCH_SHIFT));
    CivilOfParts(era, y, doy, SatAddI64(days, EPOCH_SHIFT));
    DateOfPartsValid(era, y, doy);
  }

  /** Every valid date of a 32-bit year has a day number, whose date it is. */
  lemma DaysFromCivilCorrect(d: Date)
    requires Valid(d) && I32_MIN <= d.year <= I32_MAX
    ensures var days := DaysFromCivil(d.year, d.month, d.day);
            days.Some? && I64_MIN <= days.value <= I64_MAX - EPOCH_SHIFT && CivilFromDays(days.value) == d
  {
    var era, y, doy := PartsOfDate(d);
    DaysOfParts(era, y, doy);
    CivilOfParts(era, y, doy, ShiftedOfParts(era, y, doy));
    YearSpan(y);
  }

  lemma NextInMonth(era: int, y: int, doy: int, mp: int)
    requires Parts(era, y, doy) && Parts(era, y, doy + 1) && 0 <= mp < 12 && MonthStart(mp) <= doy < MonthStart(mp + 1) - 1
    ensures DateOfParts(era, y, doy + 1) == Next(DateOfParts(era, y, doy))
  {
    YearSpan(y);
    YearLength(era, y);
    MonthOfYear(mp, doy);
    MonthOfYear(mp, doy + 1);
  }

  lemma NextMonth(era: int, y: int, doy: int, mp: int)
    requires Parts(era, y, doy) && Parts(era, y, doy + 1) && 0 <= mp < 12 && MonthStart(mp) <= doy == MonthStart(mp + 1) - 1
    ensures DateOfParts(era, y, doy + 1) == Next(DateOfParts(era, y, doy))
  {
    YearSpan(y);
    MonthOfYear(mp, doy);
    MonthOfYear(mp + 1, doy + 1);
  }

  lemma NextInYear(era: int, y: int, doy: int)
    requires Parts(era, y, doy) && Parts(era, y, doy + 1)
    ensures DateOfParts(era, y, doy + 1) == Next(DateOfParts(era, y, doy))
  {
    YearSpan(y);
    MonthContaining(doy);
    var mp := (5 * doy + 2) / 153;
    if doy < MonthStart(mp + 1) - 1 {
      NextInMonth(era, y, doy, mp);
    } else {
      NextMonth(era, y, doy, mp);
    }
  }

  lemma NextInMarch(era: int, y: int, doy: int)
    requires Parts(era, y, doy) && !Parts(era, y, doy + 1)
    ensures Next(DateOfParts(era, y, doy)) == if y < 399 then DateOfParts(era, y + 1, 0) else DateOfParts(era + 1, 0, 0)
  {
    YearSpan(y);
    YearLength(era, y);
  }

  lemma NextOfParts(era: int, y: int, doy: int) returns (era': int, y': int, doy': int)
    requires Parts(era, y, doy)
    ensures Parts(era', y', doy') && ShiftedOfParts(era', y', doy') == ShiftedOfParts(era, y, doy) + 1
    ensures DateOfParts(era', y', doy') == Next(DateOfParts(era, y, doy))
  {
    YearSpan(y);
    if Parts(era, y, doy + 1) {
      NextInYear(era, y, doy);
      era', y', doy' := era, y, doy + 1;
    } else {
      NextInMarch(era, y, doy);
      if y < 399 {
        YearSpan(y + 1);
        era', y', doy' := era, y + 1, 0;
      } else {
        YearSpan(0);
        era', y', doy' := era + 1, 0, 0;
      }
    }
  }

  lemma NextShifted(z: int)
    ensures CivilFromShifted(z + 1) == Next(CivilFromShifted(z))
  {
    var era, y, doy := PartsOfShifted(z);
    CivilOfParts(era, y, doy, z);
    var era', y', doy' := NextOfParts(era, y, doy);
    CivilOfParts(era', y', doy', z + 1);
  }

  lemma Epoch()
    ensures CivilFromDays(0) == Date(1970, 1, 1)
  {
  }

  /** The day number counts calendar days: day 0 is 1970-01-01 and each day is followed by the next date. */
  lemma DaysCountCalendarDays(days: I64)
    requires days < I64_MAX - EPOCH_SHIFT
    ensures CivilFromDays(days + 1) == Next(CivilFromDays(days))
  {
    NextShifted(days + EPOCH_SHIFT);
  }

  lemma PartsOrdered(e1: int, y1: int, d1: int, e2: int, y2: int, d2: int)
    requires Parts(e1, y1, d1) && Parts(e2, y2, d2) && ShiftedOfParts(e1, y1, d1) < ShiftedOfParts(e2, y2, d2)
    ensures e1 * 400 + y1 < e2 * 400 + y2 || (e1 == e2 && y1 == y2 && d1 < d2)
  {
    YearSpan(y1);
    YearSpan(y2);
    assert e1 <= e2;
    if e1 == e2 && y2 < y1 {
      YearStartsAscend(y2, y1);
    }
  }

  lemma YearStartsAscend(a: int, b: int)
    requires 0 <= a < b < 400
    ensures YearEnd(a) <= YearStart(b)
  {
  }

  lemma DatesOrdered(e1: int, y1: int, d1: int, e2: int, y2: int, d2: int)
    requires Parts(e1, y1, d1) && Parts(e2, y2, d2)
    requires e1 * 400 + y1 < e2 * 400 + y2 || (e1 == e2 && y1 == y2 && d1 < d2)
    ensures Before(DateOfParts(e1, y1, d1), DateOfParts(e2, y2, d2))
  {
    YearSpan(y1);
    YearSpan(y2);
    MonthContaining(d1);
    MonthContaining(d2);
  }

  /** Later days have later dates. */
  lemma DatesFollowDays(a: I64, b: I64)
    requires a < b <= I64_MAX - EPOCH_SHIFT
    ensures Before(CivilFromDays(a), CivilFromDays(b))
  {
    var e1, y1, d1 := PartsOfShifted(SatAddI64(a, EPOCH_SHIFT));
    var e2, y2, d2 := PartsOfShifted(SatAddI64(b, EPOCH_SHIFT));
    PartsOrdered(e1, y1, d1, e2, y2, d2);
    DatesOrdered(e1, y1, d1, e2, y2, d2);
    CivilOfParts(e1, y1, d1, SatAddI64(a, EPOCH_SHIFT));
    CivilOfParts(e2, y2, d2, SatAddI64(b, EPOCH_SHIFT));
  }

  // ---------------------------------------------------------------- the days of 32-bit years

  /** The first and the last day whose year has 32 bits. */
  const FIRST_I32_DAY: I64 := -784_353_015_833
  const LAST_I32_DAY: I64 := 784_351_576_776

  lemma FirstI32Day()
    ensures DaysFromCivil(I32_MIN, 1, 1) == Some(FIRST_I32_DAY)
  {
  }

  lemma LastI32Day()
    ensures DaysFromCivil(I32_MAX, 12, 31) == Some(LAST_I32_DAY)
  {
  }

  lemma I32Ends()
    ensures CivilFromDays(FIRST_I32_DAY) == Date(I32_MIN, 1, 1) && CivilFromDays(LAST_I32_DAY) == Date(I32_MAX, 12, 31)
  {
    FirstI32Day();
    LastI32Day();
    DaysFromCivilCorrect(Date(I32_MIN, 1, 1));
    DaysFromCivilCorrect(Date(I32_MAX, 12, 31));
  }

  lemma NothingAfterDecember31(last: Date, d: Date)
    requires Valid(d) && last.month == 12 && last.day == 31
    ensures Before(last, d) ==> last.year < d.year
    ensures d == last || Before(d, last) ==> d.year <= last.year
  {
  }

  lemma NothingBeforeJanuary1(first: Date, d: Date)
    requires Valid(d) && first.month == 1 && first.day == 1
    ensures Before(d, first) ==> d.year < first.year
    ensures d == first || Before(first, d) ==> first.year <= d.year
  {
  }

  lemma YearFitsUnshifted(days: I64)
    requires days <= I64_MAX - EPOCH_SHIFT
    ensures I32_MIN <= CivilFromDays(days).year <= I32_MAX <==> FIRST_I32_DAY <= days <= LAST_I32_DAY
  {
    I32Ends();
    CivilIsValid(days);
    var first, d, last := CivilFromDays(FIRST_I32_DAY), CivilFromDays(days), CivilFromDays(LAST_I32_DAY);
    NothingBeforeJanuary1(first, d);
    NothingAfterDecember31(last, d);
    if days < FIRST_I32_DAY { DatesFollowDays(days, FIRST_I32_DAY); }
    if FIRST_I32_DAY < days { DatesFollowDays(FIRST_I32_DAY, days); }
    if days < LAST_I32_DAY { DatesFollowDays(days, LAST_I32_DAY); }
    if LAST_I32_DAY < days { DatesFollowDays(LAST_I32_DAY, days); }
  }

  /** In the last days of the range, where the shift saturates, the date is that of the last day before them. */
  lemma SaturatedDate(days: I64)
    requires days > I64_MAX - EPOCH_SHIFT
    ensures CivilFromDays(days) == CivilFromDays(I64_MAX - EPOCH_SHIFT)
  {
    assert SatAddI64(days, EPOCH_SHIFT) == SatAddI64(I64_MAX - EPOCH_SHIFT, EPOCH_SHIFT);
  }

  lemma YearFits(days: I64)
    ensures I32_MIN <= CivilFromDays(days).year <= I32_MAX <==> FIRST_I32_DAY <= days <= LAST_I32_DAY
  {
    if days > I64_MAX - EPOCH_SHIFT {
      SaturatedDate(days);
      YearFitsUnshifted(I64_MAX - EPOCH_SHIFT);
    } else {
      YearFitsUnshifted(days);
    }
  }

  lemma DaysOfCivil(days: I64)
    requires days <= I64_MAX - EPOCH_SHIFT && I32_MIN <= CivilFromDays(days).year <= I32_MAX
    ensures var d := CivilFromDays(days); DaysFromCivil(d.year, d.month, d.day) == Some(days)
  {
    var era, y, doy := PartsOfShifted(SatAddI64(days, EPOCH_SHIFT));
    CivilOfParts(era, y, doy, SatAddI64(days, EPOCH_SHIFT));
    DaysOfParts(era, y, doy);
  }

  /** Every day number has a valid Gregorian date.  It can be converted back exactly if it is a day of a
      32-bit year, and then converting back gives the day number. */
  lemma CivilFromDaysCorrect(days: I64)
    ensures Valid(CivilFromDays(days))
    ensures var d := CivilFromDays(days);
            && (I32_MIN <= d.year <= I32_MAX <==> FIRST_I32_DAY <= days <= LAST_I32_DAY)
            && (I32_MIN <= d.year <= I32_MAX ==> DaysFromCivil(d.year, d.month, d.day) == Some(days))
  {
    CivilIsValid(days);
    YearFits(days);
    if FIRST_I32_DAY <= days <= LAST_I32_DAY { DaysOfCivil(days); }
  }
}
