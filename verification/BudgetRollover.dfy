/** Past the year 9999 written dates no longer sort as days: what pruning then keeps. */
module BudgetRollover {
  import opened Machine
  import opened Wrappers
  import opened StringOrder
  import opened Decimal
  import opened CivilDates
  import opened DateText
  import opened Budget
  import opened BudgetRuns

  predicate SameMarchYear(e1: int, y1: int, e2: int, y2: int) {
    e1 == e2 && y1 == y2
  }

  predicate NextMarchYear(e1: int, y1: int, e2: int, y2: int) {
    if y1 < 399 then e2 == e1 && y2 == y1 + 1 else e2 == e1 + 1 && y2 == 0
  }

  lemma NearInEra(y1: int, d1: int, y2: int, d2: int)
    requires Parts(0, y1, d1) && Parts(0, y2, d2) && YearStart(y1) + d1 <= YearStart(y2) + d2 <= YearStart(y1) + d1 + 7
    ensures (y1 == y2 && d1 <= d2) || (y2 == y1 + 1 && d2 < 7 && 358 <= d1)
  {
    YearSpan(y1);
    YearSpan(y2);
    if y2 < y1 {
      YearStartsAscend(y2, y1);
    } else if y1 < y2 {
      YearStartsAscend(y1, y2);
      if y1 + 1 < y2 {
        YearSpan(y1 + 1);
        YearStartsAscend(y1 + 1, y2);
      }
    }
  }

  lemma NearOverEra(y1: int, d1: int, y2: int, d2: int)
    requires Parts(0, y1, d1) && Parts(0, y2, d2) && 146_097 + YearStart(y2) + d2 <= YearStart(y1) + d1 + 7
    ensures y1 == 399 && y2 == 0 && d2 < 7 && 358 <= d1
  {
    YearSpan(y1);
    YearSpan(y2);
    if y1 < 399 { YearStartsAscend(y1, 399); }
    if 0 < y2 { YearStartsAscend(0, y2); }
  }

  /** Days at most a week apart are in the same March year, or at its end and at the start of the next. */
  lemma PartsNear(e1: int, y1: int, d1: int, e2: int, y2: int, d2: int)
    requires Parts(e1, y1, d1) && Parts(e2, y2, d2)
    requires ShiftedOfParts(e1, y1, d1) <= ShiftedOfParts(e2, y2, d2) <= ShiftedOfParts(e1, y1, d1) + 7
    ensures (SameMarchYear(e1, y1, e2, y2) && d1 <= d2) || (NextMarchYear(e1, y1, e2, y2) && d2 < 7 && 358 <= d1)
  {
    YearSpan(y1);
    YearSpan(y2);
    if e1 == e2 {
      NearInEra(y1, d1, y2, d2);
    } else {
      assert e2 == e1 + 1;
      NearOverEra(y1, d1, y2, d2);
    }
  }

  lemma NearYears(e1: int, y1: int, d1: int, e2: int, y2: int, d2: int)
    requires Parts(e1, y1, d1) && Parts(e2, y2, d2)
    requires (SameMarchYear(e1, y1, e2, y2) && d1 <= d2) || (NextMarchYear(e1, y1, e2, y2) && d2 < 7 && 358 <= d1)
    ensures DateOfParts(e1, y1, d1).year <= DateOfParts(e2, y2, d2).year <= DateOfParts(e1, y1, d1).year + 1
  {
    YearSpan(y1);
    YearSpan(y2);
  }

  /** Up to seven days later the year is the same or the next. */
  lemma WeekStaysClose(day: I64, later: I64)
    requires day <= later <= day + 7 && later <= I64_MAX - EPOCH_SHIFT
    ensures CivilFromDays(day).year <= CivilFromDays(later).year <= CivilFromDays(day).year + 1
  {
    var z1, z2 := SatAddI64(day, EPOCH_SHIFT), SatAddI64(later, EPOCH_SHIFT);
    var e1, y1, d1 := PartsOfShifted(z1);
    var e2, y2, d2 := PartsOfShifted(z2);
    PartsNear(e1, y1, d1, e2, y2, d2);
    NearYears(e1, y1, d1, e2, y2, d2);
    CivilOfParts(e1, y1, d1, z1);
    CivilOfParts(e2, y2, d2, z2);
  }

  lemma FirstDigitOne(s: string, k: nat)
    requires AllDigits(s) && |s| == k + 1 && Value(s) == Pow10(k)
    ensures s[0] == '1'
  {
    ValueBound(s[1..]);
    HeadsOrder(DigitValue(s[0]), 1, Value(s[1..]), 0, Pow10(k));
  }

  lemma FirstDigitNine(s: string, k: nat)
    requires AllDigits(s) && |s| == k + 1 && Value(s) == Pow10(k + 1) - 1
    ensures s[0] == '9'
  {
    ValueBound(s[1..]);
    HeadsOrder(DigitValue(s[0]), 9, Value(s[1..]), Pow10(k) - 1, Pow10(k));
  }

  lemma PaddedSize(n: nat)
    requires n >= 1_000
    ensures var k := |Padded(n, 4)|; Pow10(k - 1) <= n < Pow10(k)
  {
    DigitsLength(n);
    assert Pow10(3) == 1_000;
    if |Digits(n)| < 4 { PowMonotone(|Digits(n)|, 3); }
  }

  lemma WidthJumpsAtPower(n: nat)
    requires |Padded(n + 1, 4)| != |Padded(n, 4)|
    ensures var k := |Padded(n, 4)|; n + 1 == Pow10(k) && |Padded(n + 1, 4)| == k + 1
  {
    var k, m := |Padded(n, 4)|, |Padded(n + 1, 4)|;
    assert Pow10(4) == 10_000;
    if n + 1 < 10_000 {
      PaddedLength(n + 1, 4);
      PaddedLength(n, 4);
    }
    PaddedSize(n);
    PaddedSize(n + 1);
    if m < k {
      PowMonotone(m, k - 1);
    } else {
      PowMonotone(k, m - 1);
      if m > k + 1 { PowMonotone(k + 1, m - 1); }
    }
  }

  /** When the next year takes more characters it starts with a smaller one. */
  lemma WidthJump(n: nat)
    requires |Padded(n + 1, 4)| != |Padded(n, 4)|
    ensures Padded(n + 1, 4)[0] == '1' && Padded(n, 4)[0] == '9'
  {
    WidthJumpsAtPower(n);
    var k := |Padded(n, 4)|;
    PaddedValue(n, 4);
    PaddedValue(n + 1, 4);
    FirstDigitOne(Padded(n + 1, 4), k);
    FirstDigitNine(Padded(n, 4), k - 1);
  }

  lemma SmallerHead(x: Date, y: Date)
    requires Valid(x) && Valid(y) && x.year >= 0 && y.year >= 0 && Padded(x.year, 4)[0] < Padded(y.year, 4)[0]
    ensures Less(FormatDate(x), FormatDate(y))
  {
  }

  lemma WiderYearSortsFirst(x: Date, y: Date)
    requires Valid(x) && Valid(y) && 0 <= y.year <= x.year <= y.year + 1
    requires |FormatYear(x.year)| != |FormatYear(y.year)|
    ensures Less(FormatDate(x), FormatDate(y))
  {
    WidthJump(y.year);
    SmallerHead(x, y);
  }

  lemma RecentDateOrder(x: Date, y: Date)
    requires Valid(x) && Valid(y) && 0 <= y.year <= x.year <= y.year + 1 && (x == y || Before(y, x))
    ensures Less(FormatDate(x), FormatDate(y)) <==> |FormatYear(x.year)| != |FormatYear(y.year)|
  {
    if |FormatYear(x.year)| != |FormatYear(y.year)| {
      WiderYearSortsFirst(x, y);
    } else {
      Trichotomy(FormatDate(x), FormatDate(y));
      if x != y { FormatDateOrder(y, x); }
    }
  }

  /** The order of a recent day and the cutoff, for every day since the epoch. */
  lemma RecentOrder(day: I64, cutoff: I64)
    requires -RETAIN_DAYS <= cutoff <= day <= cutoff + RETAIN_DAYS && day <= I64_MAX - EPOCH_SHIFT
    ensures Less(FormatUtcDay(day), FormatUtcDay(cutoff)) <==> YearWidth(day) != YearWidth(cutoff)
  {
    YearSinceEpoch(cutoff);
    CivilIsValid(day);
    CivilIsValid(cutoff);
    WeekStaysClose(cutoff, day);
    if cutoff < day { DatesFollowDays(cutoff, day); }
    RecentDateOrder(CivilFromDays(day), CivilFromDays(cutoff));
  }

  /** Reopening the store keeps a row of the last seven days exactly when its year takes as many
      characters as the cutoff's, or the year is too large to be parsed. */
  lemma RecentRowKept(rows: Rows, profile: string, day: I64, current: I64)
    requires 0 <= current <= U64_MAX / SECONDS_PER_DAY && current - RETAIN_DAYS <= day <= current
    requires Key(profile, FormatUtcDay(day)) in rows
    ensures Key(profile, FormatUtcDay(day)) in Prune(Gregorian, rows, FormatUtcDay(current)) <==>
            CivilFromDays(current).year > I32_MAX || YearWidth(day) == YearWidth(current - RETAIN_DAYS)
  {
    YearSinceEpoch(current);
    ParseUndoesFormat(current);
    RecentOrder(day, current - RETAIN_DAYS);
    KeptUnlessBefore(Gregorian, rows, profile, FormatUtcDay(day), FormatUtcDay(current), current);
  }

  lemma KeptUnlessBefore(dates: Calendar, rows: Rows, profile: string, date: string, currentDate: string, current: I64)
    requires Key(profile, date) in rows && current - RETAIN_DAYS >= I64_MIN
    requires dates.parse(currentDate) in {None, Some(current)}
    ensures Key(profile, date) in Prune(dates, rows, currentDate) <==>
            dates.parse(currentDate).None? || !Less(date, dates.format(current - RETAIN_DAYS))
  {
  }

  /** The calendar condition under which a restart at day `current` keeps the rows of day `day`. */
  predicate SameWidths(day: I64, current: I64)
    requires current - RETAIN_DAYS >= I64_MIN
  {
    CivilFromDays(current).year > I32_MAX || YearWidth(day) == YearWidth(current - RETAIN_DAYS)
  }

  lemma KeepsLiveWhen(dates: Calendar, policy: Policy, time: U64, day: I64, current: I64, safe: bool)
    requires day == BudgetDay(time, policy.resetHour) && current == BudgetDay(time, 0)
    requires KeptWhen(dates, day, current, safe)
    ensures KeepsLive(dates, policy, time) <==> safe
  {
    var key := Key("", dates.format(day));
    var rows: Rows := map[key := 1];
    assert Key("", dates.format(day)) in rows;
    assert KeyOf(dates, policy, "", time) in Prune(dates, rows, BudgetDate(dates, time, 0)) <==> safe;
  }

  /** Whatever the table holds, its rows of day `day` are kept exactly when the condition holds. */
  ghost predicate KeptWhen(dates: Calendar, day: I64, current: I64, safe: bool) {
    forall rows: Rows, profile: string :: Key(profile, dates.format(day)) in rows ==>
                                            (Key(profile, dates.format(day)) in Prune(dates, rows, dates.format(current)) <==> safe)
  }

  lemma SameWidthsKeep(day: I64, current: I64)
    requires 0 <= current <= LAST_U64_DAY && current - RETAIN_DAYS <= day <= current
    ensures KeptWhen(Gregorian, day, current, SameWidths(day, current))
  {
    var safe := SameWidths(day, current);
    forall rows: Rows, profile: string | Key(profile, Gregorian.format(day)) in rows
      ensures Key(profile, Gregorian.format(day)) in Prune(Gregorian, rows, Gregorian.format(current)) <==> safe
    {
      RecentRowKept(rows, profile, day, current);
    }
  }

  lemma SameWidthsKeepLive(policy: Policy, time: U64, day: I64, current: I64)
    requires day == BudgetDay(time, policy.resetHour) && current == BudgetDay(time, 0)
    ensures KeepsLive(Gregorian, policy, time) <==> SameWidths(day, current)
  {
    SameWidthsKeep(day, current);
    KeepsLiveWhen(Gregorian, policy, time, day, current, SameWidths(day, current));
  }

  /** No restart happens in a week in which the year takes more characters than the cutoff's. */
  ghost predicate RestartsInSameWidths(policy: Policy, events: seq<Event>) {
    forall i :: 0 <= i < |events| && events[i].Restart? ==>
                  SameWidths(BudgetDay(events[i].time, policy.resetHour), BudgetDay(events[i].time, 0))
  }

  /** Every 24-hour reset window admits exactly the requests it gets, up to the profile's limit, in every
      run without restarts, and in every run in time order whose restarts are on such days. */
  lemma WindowsAdmitUpToLimit(policy: Policy, events: seq<Event>, profile: string, day: int)
    requires NoRestarts(events) || (InOrder(events) && RestartsInSameWidths(policy, events))
    ensures Allowed(Gregorian, policy, events, profile, day)
         == Min(Min(policy.limitOf(profile), I64_MAX), Requests(policy, events, profile, day))
  {
    if !NoRestarts(events) {
      forall i | 0 <= i < |events| && events[i].Restart? ensures KeepsLive(Gregorian, policy, events[i].time) {
        var time := events[i].time;
        SameWidthsKeepLive(policy, time, BudgetDay(time, policy.resetHour), BudgetDay(time, 0));
      }
    }
    WindowsAdmit(policy, events, profile, day);
  }

  lemma OnlyRowLost(dates: Calendar, key: Key, n: nat, currentDate: string)
    requires 1 <= n <= I64_MAX && key !in Prune(dates, RowOf(key, n), currentDate)
    ensures Prune(dates, RowOf(key, n), currentDate) == map[]
  {
    PruneKeepsValues(dates, RowOf(key, n), currentDate);
  }

  lemma RowLostWhen(dates: Calendar, policy: Policy, profile: string, time: U64, day: I64, current: I64, n: nat)
    requires day == BudgetDay(time, policy.resetHour) && current == BudgetDay(time, 0) && 1 <= n <= I64_MAX
    requires KeptWhen(dates, day, current, false)
    ensures Prune(dates, RowOf(KeyOf(dates, policy, profile, time), n), BudgetDate(dates, time, 0)) == map[]
  {
    var key := Key(profile, dates.format(day));
    assert key in RowOf(key, n);
    OnlyRowLost(dates, key, n, dates.format(current));
  }

  /** For every time: either every restart then keeps the live rows, or a restart then lets a window
      admit more than its limit. */
  lemma RestartIsSafeOrNot(policy: Policy, profile: string, time: U64, day: I64, current: I64, n: nat)
    requires day == BudgetDay(time, policy.resetHour) && current == BudgetDay(time, 0)
    requires 1 <= n == Min(policy.limitOf(profile), I64_MAX)
    ensures SameWidths(day, current) ==> KeepsLive(Gregorian, policy, time)
    ensures !SameWidths(day, current) ==>
              Allowed(Gregorian, policy, Burst(profile, time, n) + [Restart(time)] + [Request(profile, time)], profile, day) == n + 1
  {
    SameWidthsKeepLive(policy, time, day, current);
    if !SameWidths(day, current) {
      SameWidthsKeep(day, current);
      RowLostWhen(Gregorian, policy, profile, time, day, current, n);
      WindowIsDay(policy, time, day);
      LostRowAdmitsAgain(Gregorian, policy, profile, time, day, n);
    }
  }

  /** 10000-01-01 is such a day. */
  lemma YearTenThousand()
    ensures CivilFromDays(2_932_897) == Date(10_000, 1, 1)
    ensures YearWidth(2_932_897) == 5 && YearWidth(2_932_897 - RETAIN_DAYS) == 4
  {
    assert DaysFromCivil(10_000, 1, 1) == Some(2_932_897);
    DaysFromCivilCorrect(Date(10_000, 1, 1));
    FourDigitYear(2_932_897 - RETAIN_DAYS);
    TenThousandHasFiveDigits();
  }

  lemma TenThousandHasFiveDigits()
    ensures |FormatYear(10_000)| == 5
  {
    PaddedSize(10_000);
    assert Pow10(4) == 10_000 && Pow10(5) == 100_000;
    var k := |Padded(10_000, 4)|;
    if k > 5 { PowMonotone(5, k - 1); }
  }
}
