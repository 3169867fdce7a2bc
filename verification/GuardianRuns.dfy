/** Histories of the guardian: what it does with its controller, what it reports, how it restarts a unit,
    and what it prints. */
module GuardianRuns {
  import opened Machine
  import opened Wrappers
  import opened Thresholds
  import opened Guardian
  import Emergency

  lemma RunStep(start: State, events: seq<Event>, k: nat)
    requires k < |events|
    ensures RunOf(start, events[..k + 1]) == Next(RunOf(start, events[..k]), events[k])
  {
    assert events[..k + 1] == events[..k] + [events[k]];
    RunSnoc(start, events[..k], events[k]);
  }

  // ---------------------------------------------------------------- policies

  /** Everything that a policy needs can be had: the executor of its escalation, limits in range, and for an
      enabled one memory for the reserve and a registered cgroup if that is what it kills. */
  predicate Applicable(p: Policy, w: World) {
    && (p.escalation ==> w.executorOpen)
    && 1 <= p.memThresholdGib <= 17_179_869_183 && 1 <= p.reserveMib <= 17_592_186_044_415
    && (p.enabled ==> w.maps && (p.action.CgroupKill? ==> w.registered.Some?))
  }

  /** The target that an enabled policy starts with. */
  function FirstTarget(p: Policy, w: World): Option<Target> {
    if !p.enabled then None
    else if p.action.SystemctlRestart? then Some(Systemd(p.unit))
    else if w.registered.Some? then Some(Cgroup(w.registered.value))
    else None
  }

  /** All or nothing: a policy is installed with its limits, its target and a new controller exactly if
      everything it needs can be had; otherwise the old one stays in force, and its controller untouched. */
  lemma ApplyIsAllOrNothing(s: State, p: Policy, w: World)
    requires p != s.policy
    ensures var next := TryApply(s, p, w);
            && (next.policy == p <==> Applicable(p, w))
            && (Applicable(p, w) ==>
                  && next.limits == Limits(p.memThresholdGib, p.reserveMib, p.memThresholdGib * 1_073_741_824, p.reserveMib * 1_048_576)
                  && next.target == FirstTarget(p, w)
                  && next.controller == (if p.enabled then Some(Emergency.Life(Clamp(p.retrySecs * 1_000), [])) else None)
                  && next.latched == s.latched && next.systemdNext == 0 && !next.systemdVerified && next.lastRejected.None?)
            && (!Applicable(p, w) ==>
                  && next.policy == s.policy && next.limits == s.limits && next.target == s.target
                  && next.controller == s.controller && next.latched == s.latched
                  && next.systemdNext == s.systemdNext && next.systemdVerified == s.systemdVerified
                  && next.lastRejected == Some(p))
            && next.restartLog == s.restartLog
  {
    LimitsExactly(p.memThresholdGib, p.reserveMib);
  }

  // ---------------------------------------------------------------- the controller

  /** In every history the installed controller has behaved: reports rest on writes and observations of their
      generation, writes are spaced by the retry interval of the policy, and the reserve is released first. */
  lemma GuardianKillsWell(p: Policy, limits: Limits, events: seq<Event>)
    requires NewLimits(p.memThresholdGib, p.reserveMib) == Some(limits)
    ensures var s := RunOf(Opened(p, limits), events);
            s.controller.Some? ==>
              var l := s.controller.value;
              && l.retry == Clamp(s.policy.retrySecs * 1_000)
              && Emergency.Good(l.retry, Emergency.GenerationOf(l.retry, l.ops))
              && Emergency.LogFits(Emergency.Current(l), Emergency.EffectsOf(l.retry, l.ops))
  {
    RunIsSafe(p, limits, events);
    var s := RunOf(Opened(p, limits), events);
    if s.controller.Some? {
      var l := s.controller.value;
      Emergency.GenerationIsGood(l.retry, l.ops);
      Emergency.ReleasePrecedesWrites(l.retry, l.ops);
    }
  }

  /** The second controller does what the first did and more, or is a new one, and no attempt is new. */
  ghost predicate NoNewAttempt(before: Option<Emergency.Life>, after: Option<Emergency.Life>) {
    after.Some? ==>
      || after.value.ops == []
      || (before.Some? && before.value.ops <= after.value.ops
          && forall i :: |before.value.ops| <= i < |after.value.ops| ==> !after.value.ops[i].OpAttempt?)
  }

  lemma PerformedNoAttempt(c: Option<Emergency.Life>, op: Emergency.Op)
    requires !op.OpAttempt?
    ensures NoNewAttempt(c, c) && NoNewAttempt(c, PerformOn(c, op))
  {
  }

  /** Between the two states nothing was killed or restarted. */
  ghost predicate Idle(s: State, next: State) {
    NoNewAttempt(s.controller, next.controller) && next.restartLog == s.restartLog
  }

  lemma ActiveIsIdle(s: State, w: World)
    ensures Idle(s, ReconcileActive(s, w))
  {
    PerformedNoAttempt(s.controller, Emergency.OpReset);
  }

  lemma HealthyIsIdle(s: State, w: World)
    ensures Idle(s, ReconcileHealthy(s, w))
  {
    ActiveIsIdle(s, w);
    PerformedNoAttempt(s.controller, Emergency.OpReset);
  }

  lemma UnlatchedTickIsIdle(s: State, w: World)
    requires Inv(s) && !s.latched && !HealthyIteration(s, w).state.latched
    ensures Idle(s, HealthyIteration(s, w).state)
  {
    HealthyIsIdle(s, w);
    HealthyKeeps(s, w);
    var h := ReconcileHealthy(s, w);
    if h.policy.enabled { AttemptKeeps(Latch(h, w), true, w); }
  }

  lemma RearmIsIdle(s: State, w: World)
    requires Inv(s) && s.latched && !LatchedIteration(s, w).state.latched
    ensures Idle(s, LatchedIteration(s, w).state)
  {
    PerformedNoAttempt(s.controller, Emergency.OpEnsure(w.maps));
    RetryKeeps(s, w);
    RetryKeeps(Ensured(s, w), w);
  }

  /** Nothing is killed or restarted in a step that leaves the guardian unlatched. */
  lemma ActionsOnlyWhileLatched(s: State, e: Event)
    requires Inv(s) && !Next(s, e).latched
    ensures Idle(s, Next(s, e))
  {
    if s.latched {
      RearmIsIdle(s, e.world);
    } else if e.TickEvent? {
      UnlatchedTickIsIdle(s, e.world);
    } else {
      HealthyIsIdle(s, e.world);
    }
  }

  // ---------------------------------------------------------------- reports

  /** A report that the workload was dealt with, or that it could not be. */
  predicate Reporting(i: Iteration) {
    i.Verified? || i.AlreadyEmpty? || i.KillFailed?
  }

  /** Such a report is that of an attempt on the target, before which nothing was restarted. */
  lemma ReportIsOfAttempt(s: State, w: World) returns (m: State, entering: bool)
    requires Reporting(Tick(s, w).iteration)
    ensures Tick(s, w) == AttemptEmergency(m, entering, w) && m.restartLog == s.restartLog
  {
    HealthyIsIdle(s, w);
    ActiveIsIdle(s, w);
    ActiveIsIdle(Ensured(s, w), w);
    if !s.latched {
      m, entering := Latch(ReconcileHealthy(s, w), w), true;
    } else if w.available.Some? && ShouldRearm(w.available.value, s.limits) {
      m, entering := ReconcileActive(Ensured(s, w), w), false;
    } else {
      m, entering := ReconcileActive(s, w), false;
    }
  }

  lemma FailureIsOfWrite(c: Emergency.Controller, now: U64, answers: Emergency.Answers, errno: int)
    requires Emergency.Attempt(c, now, answers).outcome == Emergency.WriteFailed(errno)
    ensures Emergency.Attempt(c, now, answers).controller.lastWrite == Some(Emergency.KillError(errno))
  {
  }

  /** What a report of the guardian says about the controller's generation. */
  ghost predicate TrueReport(i: Iteration, l: Emergency.Life) {
    var trace := Emergency.GenerationOf(l.retry, l.ops);
    && trace != []
    && (i.Verified? ==> trace[|trace| - 1].empty && Emergency.SomeKill(trace, |trace|))
    && (i.AlreadyEmpty? ==> trace[|trace| - 1].empty && Emergency.NoWrite(trace, |trace|))
    && (i.KillFailed? ==> Emergency.Current(l).lastWrite == Some(Emergency.KillError(i.errno)))
  }

  lemma AttemptIsReported(l: Emergency.Life, now: U64, answers: Emergency.Answers, entering: bool)
    requires Reporting(IterationOf(Emergency.Attempt(Emergency.Current(l), now, answers).outcome, entering))
    ensures TrueReport(IterationOf(Emergency.Attempt(Emergency.Current(l), now, answers).outcome, entering),
                       Emergency.Perform(l, Emergency.OpAttempt(now, answers)))
  {
    var op := Emergency.OpAttempt(now, answers);
    var after := Emergency.Perform(l, op);
    assert after.ops[..|after.ops| - 1] == l.ops;
    Emergency.GenerationIsGood(l.retry, after.ops);
    Emergency.Performed(l, op);
    var outcome := Emergency.Attempt(Emergency.Current(l), now, answers).outcome;
    if outcome.WriteFailed? { FailureIsOfWrite(Emergency.Current(l), now, answers, outcome.errno); }
  }

  /** What a reporting attempt leaves behind. */
  ghost predicate ReportsTruly(log: seq<Restart>, w: World, i: Iteration, next: State) {
    && next.target.Some?
    && (next.target.value.Cgroup? ==> next.controller.Some? && TrueReport(i, next.controller.value))
    && (next.target.value.Systemd? ==> i.Verified? && next.restartLog == log + [Restart(w.now, true)])
  }

  lemma AttemptReports(m: State, entering: bool, w: World)
    requires Reporting(AttemptEmergency(m, entering, w).iteration)
    ensures ReportsTruly(m.restartLog, w, AttemptEmergency(m, entering, w).iteration, AttemptEmergency(m, entering, w).state)
  {
    if m.target.value.Cgroup? {
      AttemptIsReported(m.controller.value, w.now, w.answers, entering);
    }
  }

  lemma ReportsLatched(s: State, w: World)
    requires Inv(s) && Reporting(Tick(s, w).iteration)
    ensures Tick(s, w).state.latched
  {
    if s.latched {
      RetryKeeps(s, w);
      RetryKeeps(Ensured(s, w), w);
    } else {
      HealthyKeeps(s, w);
      var h := ReconcileHealthy(s, w);
      if h.policy.enabled { AttemptKeeps(Latch(h, w), true, w); }
    }
  }

  /** In every history the guardian's reports are true: for a cgroup, `Verified` comes after a successful write of
      the generation with the cgroup seen empty, `AlreadyEmpty` with it seen empty and nothing written, and a
      failure is the last write's; for a unit, `Verified` comes with a restart that succeeded. */
  lemma GuardianReportsWell(p: Policy, limits: Limits, events: seq<Event>, w: World)
    requires NewLimits(p.memThresholdGib, p.reserveMib) == Some(limits)
    requires Reporting(Tick(RunOf(Opened(p, limits), events), w).iteration)
    ensures var s := RunOf(Opened(p, limits), events);
            Tick(s, w).state.latched && ReportsTruly(s.restartLog, w, Tick(s, w).iteration, Tick(s, w).state)
  {
    RunIsSafe(p, limits, events);
    TickReports(RunOf(Opened(p, limits), events), w);
  }

  lemma TickReports(s: State, w: World)
    requires Inv(s) && Reporting(Tick(s, w).iteration)
    ensures Tick(s, w).state.latched && ReportsTruly(s.restartLog, w, Tick(s, w).iteration, Tick(s, w).state)
  {
    ReportsLatched(s, w);
    var m, entering := ReportIsOfAttempt(s, w);
    AttemptReports(m, entering, w);
  }

  // ---------------------------------------------------------------- unit restarts

  /** No restart follows a successful one, and each waits for the retry interval of the one before. */
  ghost predicate Spaced(retry: U64, log: seq<Restart>) {
    forall a, b :: 0 <= a < b < |log| ==>
                     !log[a].ok && (log[a].now + retry <= U64_MAX ==> log[a].now + retry <= log[b].now)
  }

  /** The guardian remembers what it needs of these restarts. */
  ghost predicate Paced(retry: U64, log: seq<Restart>, s: State) {
    forall a :: 0 <= a < |log| ==>
                  (log[a].ok ==> s.systemdVerified) && (!log[a].ok ==> SatAdd64(log[a].now, retry) <= s.systemdNext)
  }

  /** The step restarted the unit when it was due. */
  predicate Restarted(retry: U64, s: State, next: State, r: Restart) {
    && !s.systemdVerified && s.systemdNext <= r.now && next.systemdVerified == r.ok
    && next.systemdNext == if r.ok then s.systemdNext else SatAdd64(r.now, retry)
  }

  lemma RestartPaced(retry: U64, log: seq<Restart>, s: State, next: State, r: Restart)
    requires Spaced(retry, log) && Paced(retry, log, s) && Restarted(retry, s, next, r)
    ensures Spaced(retry, log + [r]) && Paced(retry, log + [r], next)
  {
  }

  /** What a step on the target may do to the restart fields and the log. */
  predicate RestartStep(s: State, next: State, w: World) {
    var r := Restart(w.now, w.restarts);
    || (next.restartLog == s.restartLog && next.systemdNext == s.systemdNext && next.systemdVerified == s.systemdVerified)
    || (next.restartLog == s.restartLog + [r] && Restarted(RetryMillis(next.policy), s, next, r))
  }

  lemma AttemptRestarts(s: State, entering: bool, w: World)
    ensures RestartStep(s, AttemptEmergency(s, entering, w).state, w)
  {
  }

  /** Reconciling the target leaves the restart fields alone. */
  lemma ActiveRestartsNothing(s: State, w: World)
    ensures var next := ReconcileActive(s, w);
            next.restartLog == s.restartLog && next.systemdNext == s.systemdNext && next.systemdVerified == s.systemdVerified
  {
  }

  lemma RetryRestarts(s: State, w: World)
    ensures RestartStep(s, LatchedRetry(s, w).state, w)
  {
    ActiveRestartsNothing(s, w);
    AttemptRestarts(ReconcileActive(s, w), false, w);
  }

  lemma LatchedStepRestarts(s: State, e: Event)
    requires s.latched && Next(s, e).latched
    ensures RestartStep(s, Next(s, e), e.world)
  {
    RetryRestarts(s, e.world);
    RetryRestarts(Ensured(s, e.world), e.world);
  }

  lemma LatchingStepRestarts(s: State, e: Event)
    requires Inv(s) && !s.latched && Next(s, e).latched
    ensures var next, r := Next(s, e), Restart(e.world.now, e.world.restarts);
            || next.restartLog == s.restartLog
            || (next.restartLog == s.restartLog + [r] && Paced(RetryMillis(next.policy), [r], next))
  {
    HealthyKeeps(s, e.world);
    HealthyIsIdle(s, e.world);
    AttemptRestarts(Latch(ReconcileHealthy(s, e.world), e.world), true, e.world);
  }

  /** From the state `from` to the state `to`, restarts were spaced. */
  ghost predicate SpacedBetween(from: State, to: State) {
    && from.restartLog <= to.restartLog
    && Spaced(RetryMillis(to.policy), to.restartLog[|from.restartLog|..])
    && Paced(RetryMillis(to.policy), to.restartLog[|from.restartLog|..], to)
  }

  lemma SpacedAtFirst(s: State)
    ensures SpacedBetween(s, s)
  {
    assert s.restartLog[|s.restartLog|..] == [];
  }

  lemma StretchStep(from: State, s: State, e: Event, next: State)
    requires Inv(s) && next == Next(s, e) && next.latched && (s.latched || s == from) && SpacedBetween(from, s)
    ensures SpacedBetween(from, next)
  {
    var n, r := |from.restartLog|, Restart(e.world.now, e.world.restarts);
    if s.latched {
      StepIsSafe(s, e);
      LatchedStepRestarts(s, e);
      if next.restartLog == s.restartLog + [r] && Restarted(RetryMillis(next.policy), s, next, r) {
        assert next.restartLog[n..] == s.restartLog[n..] + [r];
        RestartPaced(RetryMillis(next.policy), s.restartLog[n..], s, next, r);
      }
    } else {
      LatchingStepRestarts(s, e);
      if next.restartLog != s.restartLog {
        assert next.restartLog[n..] == [r];
      } else {
        assert next.restartLog[n..] == [];
      }
    }
  }

  lemma StretchEvent(start: State, events: seq<Event>, from: State, k: nat)
    requires k < |events| && Inv(RunOf(start, events[..k])) && RunOf(start, events[..k + 1]).latched
    requires RunOf(start, events[..k]).latched || RunOf(start, events[..k]) == from
    requires SpacedBetween(from, RunOf(start, events[..k]))
    ensures SpacedBetween(from, RunOf(start, events[..k + 1]))
  {
    RunStep(start, events, k);
    StretchStep(from, RunOf(start, events[..k]), events[k], RunOf(start, events[..k + 1]));
  }

  lemma {:induction false} SpacedFrom(p: Policy, limits: Limits, events: seq<Event>, from: State, k: nat, j: nat)
    requires NewLimits(p.memThresholdGib, p.reserveMib) == Some(limits) && k <= j <= |events|
    requires forall n :: k < n <= j ==> RunOf(Opened(p, limits), events[..n]).latched
    requires RunOf(Opened(p, limits), events[..k]).latched || RunOf(Opened(p, limits), events[..k]) == from
    requires SpacedBetween(from, RunOf(Opened(p, limits), events[..k]))
    ensures SpacedBetween(from, RunOf(Opened(p, limits), events[..j]))
    decreases j - k
  {
    if k == j {
      assert events[..k] == events[..j];
    } else {
      RunIsSafe(p, limits, events[..k]);
      assert RunOf(Opened(p, limits), events[..k + 1]).latched;
      StretchEvent(Opened(p, limits), events, from, k);
      SpacedFrom(p, limits, events, from, k + 1, j);
    }
  }

  /** Over every stretch of a history that is latched throughout, starting with the step that latches, the unit
      restarts are spaced by the retry interval, and none follows one that succeeded. */
  lemma RestartsSpaced(p: Policy, limits: Limits, events: seq<Event>, i: nat, j: nat)
    requires NewLimits(p.memThresholdGib, p.reserveMib) == Some(limits) && i <= j <= |events|
    requires forall k :: i < k <= j ==> RunOf(Opened(p, limits), events[..k]).latched
    ensures SpacedBetween(RunOf(Opened(p, limits), events[..i]), RunOf(Opened(p, limits), events[..j]))
  {
    SpacedAtFirst(RunOf(Opened(p, limits), events[..i]));
    SpacedFrom(p, limits, events, RunOf(Opened(p, limits), events[..i]), i, j);
  }

  // ---------------------------------------------------------------- notices

  /** The noted rejection was printed last. */
  predicate Noted(s: State) {
    s.lastRejected.Some? ==> s.noticeLog != [] && s.noticeLog[|s.noticeLog| - 1] == s.lastRejected.value
  }

  predicate NoticeStep(s: State, next: State) {
    || (next.noticeLog == s.noticeLog && (next.lastRejected == s.lastRejected || next.lastRejected.None?))
    || (next.lastRejected.Some? && next.lastRejected != s.lastRejected && next.noticeLog == s.noticeLog + [next.lastRejected.value])
  }

  lemma NotedStep(s: State, next: State)
    requires Noted(s) && NoticeStep(s, next)
    ensures Noted(next)
  {
  }

  lemma AttemptNotes(s: State, entering: bool, w: World)
    ensures var next := AttemptEmergency(s, entering, w).state; next.noticeLog == s.noticeLog && next.lastRejected == s.lastRejected
  {
  }

  lemma ActiveNotes(s: State, w: World)
    ensures NoticeStep(s, ReconcileActive(s, w))
  {
  }

  lemma ReconcileNotes(s: State, w: World)
    ensures NoticeStep(s, ReconcileHealthy(s, w))
  {
    if w.requested.Some? && w.requested.value != s.policy {
      ApplyNotes(s, w.requested.value, w);
    } else {
      ActiveNotes(s, w);
    }
  }

  lemma ApplyNotes(s: State, p: Policy, w: World)
    ensures NoticeStep(s, TryApply(s, p, w))
  {
  }

  lemma RetryNotes(s: State, w: World)
    ensures NoticeStep(s, LatchedRetry(s, w).state)
  {
    ActiveNotes(s, w);
    AttemptNotes(ReconcileActive(s, w), false, w);
  }

  lemma HealthyNotes(s: State, w: World)
    ensures NoticeStep(s, HealthyIteration(s, w).state)
  {
    ReconcileNotes(s, w);
    AttemptNotes(Latch(ReconcileHealthy(s, w), w), true, w);
  }

  lemma StepNotes(s: State, e: Event)
    ensures NoticeStep(s, Next(s, e))
  {
    if s.latched {
      RetryNotes(s, e.world);
      RetryNotes(Ensured(s, e.world), e.world);
    } else if e.TickEvent? {
      HealthyNotes(s, e.world);
    } else {
      ReconcileNotes(s, e.world);
    }
  }

  lemma {:induction false} RunNotes(start: State, events: seq<Event>)
    requires Noted(start)
    ensures Noted(RunOf(start, events))
  {
    if events != [] {
      var s := RunOf(start, events[..|events| - 1]);
      RunNotes(start, events[..|events| - 1]);
      StepNotes(s, events[|events| - 1]);
      NotedStep(s, Next(s, events[|events| - 1]));
    }
  }

  /** From the n-th notice on, no notice repeats the one before it. */
  predicate DifferFrom(log: seq<Policy>, n: nat) {
    forall k :: n <= k < |log| && 0 < k ==> log[k] != log[k - 1]
  }

  /** From the state `from` to the state `to`, no notice repeats the one before it. */
  ghost predicate DifferBetween(from: State, to: State) {
    0 < |from.noticeLog| && from.noticeLog <= to.noticeLog && DifferFrom(to.noticeLog, |from.noticeLog|)
  }

  lemma DifferAtFirst(s: State)
    requires Noted(s) && s.lastRejected.Some?
    ensures DifferBetween(s, s)
  {
  }

  lemma DifferStep(from: State, s: State, next: State)
    requires Noted(s) && s.lastRejected.Some? && next.lastRejected.Some? && NoticeStep(s, next) && DifferBetween(from, s)
    ensures DifferBetween(from, next)
  {
  }

  /** Until a policy is applied or a target opened, the same rejection is never printed twice in a row. */
  lemma {:induction false} NoticesDiffer(p: Policy, limits: Limits, events: seq<Event>, i: nat, j: nat)
    requires i <= j <= |events|
    requires forall k :: i <= k <= j ==> RunOf(Opened(p, limits), events[..k]).lastRejected.Some?
    ensures DifferBetween(RunOf(Opened(p, limits), events[..i]), RunOf(Opened(p, limits), events[..j]))
    decreases j
  {
    var start := Opened(p, limits);
    if i == j {
      RunNotes(start, events[..i]);
      assert RunOf(start, events[..i]).lastRejected.Some?;
      DifferAtFirst(RunOf(start, events[..i]));
    } else {
      NoticesDiffer(p, limits, events, i, j - 1);
      RunStep(start, events, j - 1);
      RunNotes(start, events[..j - 1]);
      StepNotes(RunOf(start, events[..j - 1]), events[j - 1]);
      assert RunOf(start, events[..j]).lastRejected.Some? && RunOf(start, events[..j - 1]).lastRejected.Some?;
      DifferStep(RunOf(start, events[..i]), RunOf(start, events[..j - 1]), RunOf(start, events[..j]));
    }
  }
}
