/** Daily request budgets: the counter table, the budget date of a request, and pruning. */
module Budget {
  import opened Machine
  import opened Wrappers
  import opened StringOrder
  import opened Decimal
  import opened CivilDates
  import opened DateText

  const SECONDS_PER_DAY: nat := 86_400
  const RETAIN_DAYS: int := 7

  /** Primary key of the counter table. */
  datatype Key = Key(profile: string, date: string)

  type Rows = map<Key, I64>

  datatype Outcome =
    | Checked(currentCount: int, limit: U64, allowed: bool)
    | CounterOutOfRange
    | CounterSaturated

  // ---------------------------------------------------------------- budget dates

  /** The budget day active `seconds` after the epoch, when days start at `resetHour`. */
  function BudgetDay(seconds: U64, resetHour: U32): (day: I64)
    ensures day == (seconds - 3_600 * Min(resetHour, 24)) / SECONDS_PER_DAY
    ensures seconds / SECONDS_PER_DAY - 1 <= day <= seconds / SECONDS_PER_DAY
  {
    var day := seconds / SECONDS_PER_DAY;
    var hour := (seconds % SECONDS_PER_DAY) / 3_600;
    if hour < resetHour then day - 1 else day
  }

  /** How budget dates are written and read. */
  datatype Calendar = Calendar(format: I64 -> string, parse: string -> Option<int>)

  const Gregorian := Calendar(FormatUtcDay, ParseUtcDay)

  function BudgetDate(dates: Calendar, seconds: U64, resetHour: U32): string {
    dates.format(BudgetDay(seconds, resetHour))
  }

  // ---------------------------------------------------------------- the table

  /** The table after one check, and its answer; a failed check is rolled back. */
  function Check(rows: Rows, key: Key, limit: U64): (Rows, Outcome) {
    var started := if key in rows then rows else rows[key := 0];
    var current := started[key];
    if current < 0 then (rows, CounterOutOfRange)
    else if current >= limit then (started, Checked(current, limit, false))
    else if current == I64_MAX then (rows, CounterSaturated)
    else (started[key := current + 1], Checked(current + 1, limit, true))
  }

  /** The rows left by `DELETE ... WHERE date < cutoff`. */
  function DeleteBefore(rows: Rows, cutoff: string): Rows {
    map key | key in rows && !Less(key.date, cutoff) :: rows[key]
  }

  function Prune(dates: Calendar, rows: Rows, currentDate: string): Rows {
    match dates.parse(currentDate)
    case None => rows
    case Some(day) => DeleteBefore(rows, dates.format(SaturatingSub(day, RETAIN_DAYS)))
  }

  function SaturatingSub(day: int, n: int): I64 {
    if day - n < I64_MIN then I64_MIN else if day - n > I64_MAX then I64_MAX else day - n
  }

  class BudgetStore {
    var rows: Rows

    /** Opens an existing table at time `now`. */
    constructor (dates: Calendar, stored: Rows, now: U64)
      ensures rows == Prune(dates, stored, BudgetDate(dates, now, 0))
    {
      rows := stored;
      new;
      var currentDay := dates.parse(BudgetDate(dates, now, 0));
      if currentDay.Some? {
        rows := DeleteBefore(rows, dates.format(SaturatingSub(currentDay.value, RETAIN_DAYS)));
      }
    }

    method CheckAndIncrement(profile: string, date: string, limit: U64) returns (outcome: Outcome)
      modifies this
      ensures (rows, outcome) == Check(old(rows), Key(profile, date), limit)
    {
      var key := Key(profile, date);
      var transaction := rows;
      if key !in transaction {
        transaction := transaction[key := 0];
      }
      var current := transaction[key];
      if current < 0 {
        return CounterOutOfRange;
      }
      if current >= limit {
        rows := transaction;
        return Checked(current, limit, false);
      }
      if current == I64_MAX {
        return CounterSaturated;
      }
      rows := transaction[key := current + 1];
      return Checked(current + 1, limit, true);
    }
  }

  /** What one check does to the table: a row is there afterwards unless the stored count was out of range or could not
      grow, the request is allowed exactly while the count is below the limit, and the answer is the count then stored. */
  lemma CheckExactly(rows: Rows, key: Key, limit: U64)
    ensures var stored := if key in rows then rows[key] else 0;
            var (next, outcome) := Check(rows, key, limit);
            && (outcome.CounterOutOfRange? <==> stored < 0)
            && (outcome.CounterSaturated? <==> stored == 0x7FFF_FFFF_FFFF_FFFF && stored < limit)
            && (!outcome.Checked? ==> next == rows)
            && (outcome.Checked? ==>
                  && key in next && next == rows[key := next[key]] && outcome == Checked(next[key], limit, 0 <= stored < limit)
                  && next[key] == stored + if stored < limit then 1 else 0)
  {
    assert key in rows ==> rows == rows[key := rows[key]];
  }

  // ---------------------------------------------------------------- days of four-digit years

  const FIRST_DAY: int := -719_528  // 0000-01-01
  const LAST_DAY: int := 2_932_896  // 9999-12-31

  predicate FourDigit(day: int) {
    FIRST_DAY <= day <= LAST_DAY
  }

  lemma Corners()
    ensures DaysFromCivil(0, 1, 1) == Some(FIRST_DAY)
    ensures DaysFromCivil(9_999, 12, 31) == Some(LAST_DAY)
  {
  }

  lemma FourDigitYear(day: int)
    requires FourDigit(day)
    ensures 0 <= CivilFromDays(day).year <= 9_999
    ensures YearWidth(day) == 4
  {
    Corners();
    DaysFromCivilCorrect(Date(0, 1, 1));
    DaysFromCivilCorrect(Date(9_999, 12, 31));
    CivilIsValid(day);
    if FIRST_DAY < day { DatesFollowDays(FIRST_DAY, day); }
    if day < LAST_DAY { DatesFollowDays(day, LAST_DAY); }
    assert Pow10(4) == 10_000;
    PaddedLength(CivilFromDays(day).year, 4);
  }

  lemma DateOfDigits(d: Date)
    requires Valid(d) && 0 <= d.year <= 9_999
    ensures FormatDate(d) == [Digit(d.year / 1_000), Digit(d.year / 100), Digit(d.year / 10), Digit(d.year), '-',
                              Digit(d.month / 10), Digit(d.month), '-', Digit(d.day / 10), Digit(d.day)]
  {
    FourDigits(d.year);
    TwoDigits(d.month);
    TwoDigits(d.day);
  }

  /** A date of a four-digit year is written as its digits with two hyphens between. */
  lemma FourDigitText(day: int)
    requires FourDigit(day)
    ensures var d := CivilFromDays(day);
            FormatUtcDay(day) == [Digit(d.year / 1_000), Digit(d.year / 100), Digit(d.year / 10), Digit(d.year), '-',
                                  Digit(d.month / 10), Digit(d.month), '-', Digit(d.day / 10), Digit(d.day)]
  {
    FourDigitYear(day);
    CivilIsValid(day);
    DateOfDigits(CivilFromDays(day));
  }

  /** Written dates of four-digit years sort as days do, and can be read back. */
  ghost predicate Faithful(dates: Calendar) {
    && (forall a: int, b: int :: FourDigit(a) && FourDigit(b) ==>
                                   && (Less(dates.format(a), dates.format(b)) <==> a < b)
                                   && (dates.format(a) == dates.format(b) <==> a == b))
    && (forall a: int :: FourDigit(a) ==> dates.parse(dates.format(a)) == Some(a))
  }

  lemma DayOrder(a: int, b: int)
    requires FourDigit(a) && FourDigit(b)
    ensures Less(FormatUtcDay(a), FormatUtcDay(b)) <==> a < b
    ensures FormatUtcDay(a) == FormatUtcDay(b) <==> a == b
    ensures ParseUtcDay(FormatUtcDay(a)) == Some(a)
  {
    FourDigitYear(a);
    FourDigitYear(b);
    FormatOrder(a, b);
    FormatOrder(b, a);
    ParseUndoesFormat(a);
    Trichotomy(FormatUtcDay(a), FormatUtcDay(b));
  }

  lemma GregorianIsFaithful()
    ensures Faithful(Gregorian)
  {
    forall a: int, b: int | FourDigit(a) && FourDigit(b)
      ensures Less(Gregorian.format(a), Gregorian.format(b)) <==> a < b
      ensures Gregorian.format(a) == Gregorian.format(b) <==> a == b
    {
      DayOrder(a, b);
    }
    forall a: int | FourDigit(a) ensures Gregorian.parse(Gregorian.format(a)) == Some(a) {
      DayOrder(a, a);
    }
  }

  const LAST_U64_DAY: int := U64_MAX / SECONDS_PER_DAY

  /** Different budget days are written differently. */
  ghost predicate Injective(dates: Calendar) {
    forall a: int, b: int :: -1 <= a <= LAST_U64_DAY && -1 <= b <= LAST_U64_DAY && dates.format(a) == dates.format(b) ==>
                               a == b
  }

  lemma YearSinceEpoch(day: I64)
    requires -RETAIN_DAYS - 1 <= day <= I64_MAX - EPOCH_SHIFT
    ensures CivilFromDays(day).year >= 1_969
  {
    assert DaysFromCivil(1_969, 1, 1) == Some(-365);
    DaysFromCivilCorrect(Date(1_969, 1, 1));
    DatesFollowDays(-365, day);
  }

  lemma DateLength(d: Date)
    requires Valid(d)
    ensures |FormatDate(d)| == |FormatYear(d.year)| + 6
  {
    assert Pow10(2) == 100;
    PaddedLength(d.month, 2);
    PaddedLength(d.day, 2);
  }

  lemma DaysDiffer(a: int, b: int)
    requires -1 <= a < b <= LAST_U64_DAY
    ensures FormatUtcDay(a) != FormatUtcDay(b)
  {
    YearSinceEpoch(a);
    YearSinceEpoch(b);
    CivilIsValid(a);
    CivilIsValid(b);
    DatesFollowDays(a, b);
    DatesDiffer(CivilFromDays(a), CivilFromDays(b));
  }

  lemma DatesDiffer(x: Date, y: Date)
    requires Valid(x) && Valid(y) && 0 <= x.year && 0 <= y.year && Before(x, y)
    ensures FormatDate(x) != FormatDate(y)
  {
    DateLength(x);
    DateLength(y);
    if |FormatYear(x.year)| == |FormatYear(y.year)| {
      FormatDateOrder(x, y);
      Trichotomy(FormatDate(x), FormatDate(y));
    }
  }

  lemma GregorianIsInjective()
    ensures Injective(Gregorian)
  {
    forall a: int, b: int | -1 <= a < b <= LAST_U64_DAY ensures Gregorian.format(a) != Gregorian.format(b) {
      DaysDiffer(a, b);
    }
  }

  lemma PruneFaithful(dates: Calendar, rows: Rows, profile: string, day: int, current: int)
    requires Faithful(dates) && FourDigit(day) && FourDigit(current) && FourDigit(current - RETAIN_DAYS)
    ensures var key, after := Key(profile, dates.format(day)), Prune(dates, rows, dates.format(current));
            && (key in after <==> key in rows && day >= current - RETAIN_DAYS)
            && (key in after ==> after[key] == rows[key])
  {
  }

  /** Pruning removes exactly the rows dated more than seven days before the current date. */
  lemma PruneKeepsSevenDays(rows: Rows, profile: string, day: int, current: int)
    requires FourDigit(day) && FourDigit(current) && FourDigit(current - RETAIN_DAYS)
    ensures var dates := Gregorian;
            var key, after := Key(profile, dates.format(day)), Prune(dates, rows, dates.format(current));
            && (key in after <==> key in rows && day >= current - RETAIN_DAYS)
            && (key in after ==> after[key] == rows[key])
  {
    GregorianIsFaithful();
    PruneFaithful(Gregorian, rows, profile, day, current);
  }
}
