/** Whole runs of the budget store: requests and restarts in time order. */
module BudgetRuns {
  import opened Machine
  import opened Budget

  datatype Event =
    | Request(profile: string, time: U64)
    | Restart(time: U64)

  /** Limits and reset hour, fixed during the run. */
  datatype Policy = Policy(limitOf: string -> U64, resetHour: U32)

  function KeyOf(dates: Calendar, policy: Policy, profile: string, time: U64): Key {
    Key(profile, BudgetDate(dates, time, policy.resetHour))
  }

  function RowsAfter(dates: Calendar, policy: Policy, events: seq<Event>): Rows {
    if events == [] then map[]
    else
      var rows := RowsAfter(dates, policy, events[..|events| - 1]);
      match events[|events| - 1]
      case Request(p, t) => Check(rows, KeyOf(dates, policy, p, t), policy.limitOf(p)).0
      case Restart(t) => Prune(dates, rows, BudgetDate(dates, t, 0))
  }

  /** The last event is a request that was allowed. */
  predicate LastAllowed(dates: Calendar, policy: Policy, events: seq<Event>)
    requires events != []
  {
    var e := events[|events| - 1];
    e.Request? &&
    var rows := RowsAfter(dates, policy, events[..|events| - 1]);
    var outcome := Check(rows, KeyOf(dates, policy, e.profile, e.time), policy.limitOf(e.profile)).1;
    outcome.Checked? && outcome.allowed
  }

  /** The time falls in the 24 hours that start at the reset hour of day `day`. */
  predicate InWindow(policy: Policy, time: U64, day: int) {
    0 <= time - 3_600 * Min(policy.resetHour, 24) - day * SECONDS_PER_DAY < SECONDS_PER_DAY
  }

  predicate Counts(policy: Policy, e: Event, profile: string, day: int) {
    e.Request? && e.profile == profile && InWindow(policy, e.time, day)
  }

  function Requests(policy: Policy, events: seq<Event>, profile: string, day: int): nat {
    if events == [] then 0
    else Requests(policy, events[..|events| - 1], profile, day)
         + if Counts(policy, events[|events| - 1], profile, day) then 1 else 0
  }

  function Allowed(dates: Calendar, policy: Policy, events: seq<Event>, profile: string, day: int): nat {
    if events == [] then 0
    else Allowed(dates, policy, events[..|events| - 1], profile, day)
         + if Counts(policy, events[|events| - 1], profile, day) && LastAllowed(dates, policy, events) then 1 else 0
  }

  /** The clock never goes back. */
  ghost predicate InOrder(events: seq<Event>) {
    forall i, j :: 0 <= i < j < |events| ==> events[i].time <= events[j].time
  }

  /** Whether requests of day `day` may still come after these events. */
  predicate Open(policy: Policy, events: seq<Event>, day: I64) {
    events == [] || BudgetDay(events[|events| - 1].time, policy.resetHour) <= day
  }

  function Stored(dates: Calendar, policy: Policy, events: seq<Event>, profile: string, day: I64): int {
    var rows, key := RowsAfter(dates, policy, events), Key(profile, dates.format(day));
    if key in rows then rows[key] else 0
  }

  /** Opening the store at this time keeps the row of the budget day active then. */
  ghost predicate KeepsLive(dates: Calendar, policy: Policy, time: U64) {
    forall rows: Rows, profile: string :: KeyOf(dates, policy, profile, time) in rows ==>
                                            KeyOf(dates, policy, profile, time) in Prune(dates, rows, BudgetDate(dates, time, 0))
  }

  ghost predicate SafeRestarts(dates: Calendar, policy: Policy, events: seq<Event>) {
    forall i :: 0 <= i < |events| && events[i].Restart? ==> KeepsLive(dates, policy, events[i].time)
  }

  function Quota(policy: Policy, profile: string, requests: nat): int {
    Min(Min(policy.limitOf(profile), I64_MAX), requests)
  }

  lemma CheckCounts(rows: Rows, key: Key, limit: U64, n: nat)
    requires (if key in rows then rows[key] else 0) == Min(Min(limit, I64_MAX), n)
    ensures var (after, outcome) := Check(rows, key, limit);
            var m := Min(Min(limit, I64_MAX), n + 1);
            && (if key in after then after[key] else 0) == m
            && ((outcome.Checked? && outcome.allowed) <==> m == Min(Min(limit, I64_MAX), n) + 1)
  {
  }

  lemma CheckFrames(rows: Rows, key: Key, limit: U64, other: Key)
    requires other != key
    ensures var after := Check(rows, key, limit).0;
            (other in after <==> other in rows) && (other in after ==> after[other] == rows[other])
  {
  }

  lemma WindowIsDay(policy: Policy, time: U64, day: int)
    ensures InWindow(policy, time, day) <==> BudgetDay(time, policy.resetHour) == day
  {
  }

  lemma PruneKeepsValues(dates: Calendar, rows: Rows, currentDate: string)
    ensures var after := Prune(dates, rows, currentDate);
            forall key :: key in after ==> key in rows && after[key] == rows[key]
  {
  }

  lemma {:induction false} NoRequestsYet(policy: Policy, events: seq<Event>, profile: string, day: int)
    requires InOrder(events)
    requires events != [] ==> BudgetDay(events[|events| - 1].time, policy.resetHour) < day
    ensures Requests(policy, events, profile, day) == 0
  {
    if events != [] {
      var before := events[..|events| - 1];
      WindowIsDay(policy, events[|events| - 1].time, day);
      assert before != [] ==> before[|before| - 1].time <= events[|events| - 1].time;
      NoRequestsYet(policy, before, profile, day);
    }
  }

  /** The number of requests allowed is the number of requests cut off at the limit. */
  ghost predicate Limited(dates: Calendar, policy: Policy, events: seq<Event>, profile: string, day: I64) {
    Allowed(dates, policy, events, profile, day) == Quota(policy, profile, Requests(policy, events, profile, day))
  }

  /** And the row of the day holds it. */
  ghost predicate Stocked(dates: Calendar, policy: Policy, events: seq<Event>, profile: string, day: I64) {
    && Limited(dates, policy, events, profile, day)
    && Stored(dates, policy, events, profile, day) == Allowed(dates, policy, events, profile, day)
  }

  lemma CountedRequest(dates: Calendar, policy: Policy, before: seq<Event>, e: Event, profile: string, day: I64)
    requires e.Request? && e.profile == profile && BudgetDay(e.time, policy.resetHour) == day
    requires Stocked(dates, policy, before, profile, day)
    ensures Stocked(dates, policy, before + [e], profile, day)
  {
    assert (before + [e])[..|before|] == before;
    WindowIsDay(policy, e.time, day);
    var rows, key := RowsAfter(dates, policy, before), Key(profile, dates.format(day));
    CheckCounts(rows, key, policy.limitOf(profile), Requests(policy, before, profile, day));
  }

  lemma OtherRequest(dates: Calendar, policy: Policy, before: seq<Event>, e: Event, profile: string, day: I64)
    requires Injective(dates) && -1 <= day <= LAST_U64_DAY
    requires e.Request? && !(e.profile == profile && BudgetDay(e.time, policy.resetHour) == day)
    requires Limited(dates, policy, before, profile, day)
    ensures Limited(dates, policy, before + [e], profile, day)
    ensures Stocked(dates, policy, before, profile, day) ==> Stocked(dates, policy, before + [e], profile, day)
  {
    assert (before + [e])[..|before|] == before;
    WindowIsDay(policy, e.time, day);
    var rows, key := RowsAfter(dates, policy, before), Key(profile, dates.format(day));
    CheckFrames(rows, KeyOf(dates, policy, e.profile, e.time), policy.limitOf(e.profile), key);
  }

  lemma RequestStocked(dates: Calendar, policy: Policy, before: seq<Event>, e: Event, profile: string, day: I64)
    requires Injective(dates) && -1 <= day <= LAST_U64_DAY && e.Request?
    requires Stocked(dates, policy, before, profile, day)
    ensures Stocked(dates, policy, before + [e], profile, day)
  {
    if e.profile == profile && BudgetDay(e.time, policy.resetHour) == day {
      CountedRequest(dates, policy, before, e, profile, day);
    } else {
      OtherRequest(dates, policy, before, e, profile, day);
    }
  }

  ghost predicate NoRestarts(events: seq<Event>) {
    forall i :: 0 <= i < |events| ==> events[i].Request?
  }

  /** Without restarts every row holds its count, whatever the clock does. */
  lemma {:induction false} StockedWithoutRestarts(dates: Calendar, policy: Policy, events: seq<Event>, profile: string, day: I64)
    requires Injective(dates) && NoRestarts(events) && -1 <= day <= LAST_U64_DAY
    ensures Stocked(dates, policy, events, profile, day)
  {
    if events != [] {
      var before, e := events[..|events| - 1], events[|events| - 1];
      assert before + [e] == events;
      StockedWithoutRestarts(dates, policy, before, profile, day);
      RequestStocked(dates, policy, before, e, profile, day);
    }
  }

  /** What holds after every run whose clock does not go back: the number of allowed requests is the number
      of requests cut off at the limit, and the row of a day that is still open holds it. */
  ghost predicate Tallied(dates: Calendar, policy: Policy, events: seq<Event>, profile: string, day: I64) {
    && Limited(dates, policy, events, profile, day)
    && (Open(policy, events, day) ==> Stocked(dates, policy, events, profile, day))
  }

  lemma OpenBefore(policy: Policy, before: seq<Event>, e: Event, day: I64)
    requires before != [] ==> before[|before| - 1].time <= e.time
    ensures Open(policy, before + [e], day) <==> BudgetDay(e.time, policy.resetHour) <= day
    ensures Open(policy, before + [e], day) ==> Open(policy, before, day)
  {
  }

  lemma RequestTallied(dates: Calendar, policy: Policy, before: seq<Event>, e: Event, profile: string, day: I64)
    requires Injective(dates) && -1 <= day <= LAST_U64_DAY && e.Request?
    requires before != [] ==> before[|before| - 1].time <= e.time
    requires Tallied(dates, policy, before, profile, day)
    ensures Tallied(dates, policy, before + [e], profile, day)
  {
    OpenBefore(policy, before, e, day);
    if Open(policy, before + [e], day) {
      RequestStocked(dates, policy, before, e, profile, day);
    } else {
      OtherRequest(dates, policy, before, e, profile, day);
    }
  }

  lemma RestartCountsNothing(dates: Calendar, policy: Policy, before: seq<Event>, e: Event, profile: string, day: I64)
    requires e.Restart?
    ensures Allowed(dates, policy, before + [e], profile, day) == Allowed(dates, policy, before, profile, day)
    ensures Requests(policy, before + [e], profile, day) == Requests(policy, before, profile, day)
    ensures RowsAfter(dates, policy, before + [e]) == Prune(dates, RowsAfter(dates, policy, before), BudgetDate(dates, e.time, 0))
  {
    assert (before + [e])[..|before|] == before;
  }

  lemma RestartTallied(dates: Calendar, policy: Policy, before: seq<Event>, e: Event, profile: string, day: I64)
    requires e.Restart? && KeepsLive(dates, policy, e.time) && InOrder(before)
    requires before != [] ==> before[|before| - 1].time <= e.time
    requires Tallied(dates, policy, before, profile, day)
    ensures Tallied(dates, policy, before + [e], profile, day)
  {
    OpenBefore(policy, before, e, day);
    RestartCountsNothing(dates, policy, before, e, profile, day);
    var rows, key := RowsAfter(dates, policy, before), Key(profile, dates.format(day));
    PruneKeepsValues(dates, rows, BudgetDate(dates, e.time, 0));
    if BudgetDay(e.time, policy.resetHour) < day {
      NoRequestsYet(policy, before, profile, day);
    } else if BudgetDay(e.time, policy.resetHour) == day {
      assert KeyOf(dates, policy, profile, e.time) == key;
    }
  }

  lemma EventTallied(dates: Calendar, policy: Policy, before: seq<Event>, e: Event, profile: string, day: I64)
    requires Injective(dates) && -1 <= day <= LAST_U64_DAY && InOrder(before)
    requires before != [] ==> before[|before| - 1].time <= e.time
    requires e.Restart? ==> KeepsLive(dates, policy, e.time)
    requires Tallied(dates, policy, before, profile, day)
    ensures Tallied(dates, policy, before + [e], profile, day)
  {
    if e.Request? {
      RequestTallied(dates, policy, before, e, profile, day);
    } else {
      RestartTallied(dates, policy, before, e, profile, day);
    }
  }

  lemma OrderBefore(dates: Calendar, policy: Policy, events: seq<Event>)
    requires InOrder(events) && SafeRestarts(dates, policy, events) && events != []
    ensures var before, e := events[..|events| - 1], events[|events| - 1];
            && InOrder(before) && SafeRestarts(dates, policy, before)
            && (before != [] ==> before[|before| - 1].time <= e.time)
            && (e.Restart? ==> KeepsLive(dates, policy, e.time))
  {
  }

  lemma {:induction false} RunTallied(dates: Calendar, policy: Policy, events: seq<Event>, profile: string, day: I64)
    requires Injective(dates) && InOrder(events) && SafeRestarts(dates, policy, events)
    requires -1 <= day <= LAST_U64_DAY
    ensures Tallied(dates, policy, events, profile, day)
  {
    if events != [] {
      var before, e := events[..|events| - 1], events[|events| - 1];
      assert before + [e] == events;
      OrderBefore(dates, policy, events);
      RunTallied(dates, policy, before, profile, day);
      EventTallied(dates, policy, before, e, profile, day);
    }
  }

  lemma {:induction false} OtherDaysAreEmpty(dates: Calendar, policy: Policy, events: seq<Event>, profile: string, day: int)
    requires !(-1 <= day <= LAST_U64_DAY)
    ensures Allowed(dates, policy, events, profile, day) == Requests(policy, events, profile, day) == 0
  {
    if events != [] {
      OtherDaysAreEmpty(dates, policy, events[..|events| - 1], profile, day);
      WindowIsDay(policy, events[|events| - 1].time, day);
    }
  }

  /** Every 24-hour reset window admits exactly the requests it gets, up to the profile's limit. */
  lemma WindowsAdmit(policy: Policy, events: seq<Event>, profile: string, day: int)
    requires NoRestarts(events) || (InOrder(events) && SafeRestarts(Gregorian, policy, events))
    ensures Allowed(Gregorian, policy, events, profile, day)
         == Min(Min(policy.limitOf(profile), I64_MAX), Requests(policy, events, profile, day))
  {
    GregorianIsInjective();
    if !(-1 <= day <= LAST_U64_DAY) {
      OtherDaysAreEmpty(Gregorian, policy, events, profile, day);
    } else if NoRestarts(events) {
      StockedWithoutRestarts(Gregorian, policy, events, profile, day);
    } else {
      RunTallied(Gregorian, policy, events, profile, day);
    }
  }

  /** Requests that use up a quota of `n`. */
  function Burst(profile: string, time: U64, n: nat): seq<Event> {
    if n == 0 then [] else Burst(profile, time, n - 1) + [Request(profile, time)]
  }

  function RowOf(key: Key, n: nat): Rows
    requires n <= I64_MAX
  {
    if n == 0 then map[] else map[key := n]
  }

  lemma CheckBelowLimit(key: Key, limit: U64, n: nat)
    requires n < Min(limit, I64_MAX)
    ensures Check(RowOf(key, n), key, limit) == (RowOf(key, n + 1), Checked(n + 1, limit, true))
  {
    var rows := RowOf(key, n);
    var started := if key in rows then rows else rows[key := 0];
    assert started[key := n + 1] == map[key := n + 1];
  }

  /** These events allowed `n` requests of the window and left the table with just its row. */
  ghost predicate Used(dates: Calendar, policy: Policy, events: seq<Event>, key: Key, day: int, n: nat) {
    n <= I64_MAX && Allowed(dates, policy, events, key.profile, day) == n && RowsAfter(dates, policy, events) == RowOf(key, n)
  }

  lemma AllowedRequest(dates: Calendar, policy: Policy, before: seq<Event>, profile: string, time: U64, day: int, n: nat, allowed: nat)
    requires n < Min(policy.limitOf(profile), I64_MAX) && InWindow(policy, time, day)
    requires RowsAfter(dates, policy, before) == RowOf(KeyOf(dates, policy, profile, time), n)
    requires Allowed(dates, policy, before, profile, day) == allowed
    ensures var events := before + [Request(profile, time)];
            && Allowed(dates, policy, events, profile, day) == allowed + 1
            && RowsAfter(dates, policy, events) == RowOf(KeyOf(dates, policy, profile, time), n + 1)
  {
    CheckBelowLimit(KeyOf(dates, policy, profile, time), policy.limitOf(profile), n);
    assert (before + [Request(profile, time)])[..|before|] == before;
  }

  lemma UsedMore(dates: Calendar, policy: Policy, before: seq<Event>, profile: string, time: U64, day: int, n: nat)
    requires n < Min(policy.limitOf(profile), I64_MAX) && InWindow(policy, time, day)
    requires Used(dates, policy, before, KeyOf(dates, policy, profile, time), day, n)
    ensures Used(dates, policy, before + [Request(profile, time)], KeyOf(dates, policy, profile, time), day, n + 1)
  {
    AllowedRequest(dates, policy, before, profile, time, day, n, n);
  }

  lemma {:induction false} BurstIsAllowed(dates: Calendar, policy: Policy, profile: string, time: U64, day: int, n: nat)
    requires n <= Min(policy.limitOf(profile), I64_MAX) && InWindow(policy, time, day)
    ensures Used(dates, policy, Burst(profile, time, n), KeyOf(dates, policy, profile, time), day, n)
  {
    if n == 0 {
      assert Used(dates, policy, [], KeyOf(dates, policy, profile, time), day, 0);
    } else {
      BurstIsAllowed(dates, policy, profile, time, day, n - 1);
      UsedMore(dates, policy, Burst(profile, time, n - 1), profile, time, day, n - 1);
    }
  }

  /** A restart that loses the live row lets a used-up window admit another request. */
  lemma LostRowAdmitsAgain(dates: Calendar, policy: Policy, profile: string, time: U64, day: int, n: nat)
    requires 1 <= n == Min(policy.limitOf(profile), I64_MAX) && InWindow(policy, time, day)
    requires Prune(dates, RowOf(KeyOf(dates, policy, profile, time), n), BudgetDate(dates, time, 0)) == map[]
    ensures Allowed(dates, policy, Burst(profile, time, n) + [Restart(time)] + [Request(profile, time)], profile, day) == n + 1
  {
    var restarted := Burst(profile, time, n) + [Restart(time)];
    BurstIsAllowed(dates, policy, profile, time, day, n);
    assert restarted[..|restarted| - 1] == Burst(profile, time, n);
    AllowedRequest(dates, policy, restarted, profile, time, day, 0, n);
  }
}
