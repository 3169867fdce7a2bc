/** What every tick of the guardian must do: when the latch closes and opens, what becomes of the target, and
    what is done to it. */
module GuardianTicks {
  import opened Machine
  import opened Wrappers
  import opened Thresholds
  import opened Guardian
  import opened GuardianRuns
  import Emergency
  import EmergencyRuns

  // ---------------------------------------------------------------- targets

  /** The policy in force after a step that may change it. */
  function InForce(s: State, w: World): Policy {
    if w.requested.Some? && w.requested.value != s.policy && Applicable(w.requested.value, w) then w.requested.value
    else s.policy
  }

  /** The target that an installed policy opens now: a cgroup each time, a unit only once. */
  function Reopened(target: Option<Target>, p: Policy, w: World): Option<Target> {
    if p.enabled && p.action.CgroupKill? && w.registered.Some? then Some(Cgroup(w.registered.value))
    else if p.enabled && p.action.SystemctlRestart? && target.None? then Some(Systemd(p.unit))
    else None
  }

  /** A new generation begins: the opened target is another one, or the same cgroup again after it was dealt with. */
  ghost predicate Renews(target: Option<Target>, candidate: Option<Target>, l: Emergency.Life, w: World) {
    && candidate.Some?
    && !(candidate == target && candidate.value.Cgroup? && w.metadata && !EmergencyRuns.Reported(EmergencyRuns.AttemptsOf(l.retry, l.ops)))
  }

  /** The operations of reconciling an installed target. */
  ghost function Renewal(target: Option<Target>, p: Policy, l: Emergency.Life, w: World): seq<Emergency.Op> {
    if Renews(target, Reopened(target, p, w), l, w) then [Emergency.OpReset] else []
  }

  function TargetAfter(target: Option<Target>, p: Policy, w: World): Option<Target> {
    if Reopened(target, p, w).Some? then Reopened(target, p, w) else target
  }

  ghost function Extended(l: Emergency.Life, ops: seq<Emergency.Op>): Emergency.Life {
    l.(ops := l.ops + ops)
  }

  lemma VerifiedExactly(l: Emergency.Life)
    ensures Emergency.Current(l).verified <==> EmergencyRuns.Reported(EmergencyRuns.AttemptsOf(l.retry, l.ops))
  {
    EmergencyRuns.RunRecalls(l.retry, l.ops);
  }

  /** Reconciling keeps everything but the target, the generation and what was noted of rejections. */
  ghost predicate Reconciled(s: State, w: World, next: State) {
    && next.policy == s.policy && next.limits == s.limits && next.latched == s.latched
    && next.systemdNext == s.systemdNext && next.systemdVerified == s.systemdVerified && next.restartLog == s.restartLog
    && next.target == TargetAfter(s.target, s.policy, w)
    && next.controller ==
       (if s.controller.Some? then Some(Extended(s.controller.value, Renewal(s.target, s.policy, s.controller.value, w))) else None)
  }

  /** The operations are those of the renewal. */
  lemma RenewalExactly(s: State, w: World)
    requires s.controller.Some?
    ensures ReconcileActive(s, w).controller == Some(Extended(s.controller.value, Renewal(s.target, s.policy, s.controller.value, w)))
  {
    VerifiedExactly(s.controller.value);
    assert s.controller.value.ops + [] == s.controller.value.ops;
  }

  lemma ActiveExactly(s: State, w: World)
    ensures Reconciled(s, w, ReconcileActive(s, w))
  {
    if s.controller.Some? { RenewalExactly(s, w); }
  }

  // ---------------------------------------------------------------- what is done to the target

  /** How the outcome of an attempt is announced. */
  function Announced(outcome: Emergency.Outcome, entering: bool): Iteration {
    match outcome
    case Verified => Iteration.Verified
    case AlreadyEmpty => Iteration.AlreadyEmpty
    case WriteFailed(errno) => KillFailed(errno)
    case Waiting => if entering then Shed else Iteration.Waiting
    case Retry => if entering then Shed else Iteration.Waiting
  }

  /** A restart is due: none has succeeded, and the time to retry has come. */
  predicate Due(s: State, w: World) {
    !s.systemdVerified && s.systemdNext <= w.now
  }

  /** The action of the target: a cgroup is attempted, a unit is restarted when that is due. */
  ghost predicate Acted(s: State, w: World, entering: bool, r: Stepped) {
    && r.state.policy == s.policy && r.state.limits == s.limits && r.state.latched == s.latched && r.state.target == s.target
    && match s.target
       case None => r.state.controller == s.controller && r.state.restartLog == s.restartLog && r.iteration == Unarmed
       case Some(Cgroup(_)) =>
         var op := Emergency.OpAttempt(w.now, w.answers);
         && r.state.restartLog == s.restartLog
         && (s.controller.Some? ==>
               && r.state.controller == Some(Emergency.Perform(s.controller.value, op))
               && r.iteration == Announced(Emergency.Apply(Emergency.Current(s.controller.value), op).outcome, entering))
       case Some(Systemd(_)) =>
         && r.state.controller == s.controller
         && r.state.restartLog == s.restartLog + (if Due(s, w) then [Restart(w.now, w.restarts)] else [])
         && r.iteration == (if Due(s, w) && w.restarts then Iteration.Verified else if entering then Shed else Iteration.Waiting)
  }

  lemma AttemptActs(s: State, entering: bool, w: World)
    ensures Acted(s, w, entering, AttemptEmergency(s, entering, w))
  {
    assert s.restartLog + [] == s.restartLog;
  }

  // ---------------------------------------------------------------- unlatched ticks

  /** The state after the configuration was looked at. */
  ghost predicate Checked(s: State, w: World, h: State) {
    var p := InForce(s, w);
    && h.policy == p && !h.latched && h.restartLog == s.restartLog && h.systemdNext == 0 && !h.systemdVerified
    && h.limits.thresholdBytes == p.memThresholdGib * 1_073_741_824
    && (p != s.policy ==>
          && h.target == FirstTarget(p, w)
          && h.controller == if p.enabled then Some(Emergency.Life(Clamp(p.retrySecs * 1_000), [])) else None)
    && (p == s.policy && w.requested == Some(s.policy) ==> Reconciled(s, w, h))
    && (p == s.policy && w.requested != Some(s.policy) ==> h.target == s.target && h.controller == s.controller)
  }

  lemma CheckExactly(s: State, w: World)
    requires Inv(s) && !s.latched
    ensures Checked(s, w, ReconcileHealthy(s, w))
  {
    LimitsExactly(s.policy.memThresholdGib, s.policy.reserveMib);
    ActiveExactly(s, w);
    if w.requested.Some? && w.requested.value != s.policy {
      ApplyIsAllOrNothing(s, w.requested.value, w);
    }
  }

  /** The reading is at or below the threshold of the policy. */
  predicate Pressed(p: Policy, w: World) {
    w.available.Some? && w.available.value <= p.memThresholdGib * 1_073_741_824
  }

  /** The emergency is entered: latched, with the release of the reserve tried. */
  function Entered(h: State, l: Emergency.Life, w: World): State {
    h.(latched := true, controller := Some(Emergency.Perform(l, Emergency.OpEnter(w.enterUnmaps))))
  }

  /** An unlatched tick latches exactly under pressure with an enabled policy; then the release is tried and the
      action of the target follows, and otherwise nothing is done. */
  ghost predicate Ticked(s: State, w: World, h: State, r: Stepped) {
    var p := InForce(s, w);
    && Checked(s, w, h)
    && (r.state.latched <==> p.enabled && Pressed(p, w))
    && r.state.policy == p
    && (r.state.latched ==>
          h.controller.Some? && Acted(Entered(h, h.controller.value, w), w, true, r))
    && (!r.state.latched ==>
          && r.state.target == h.target && r.state.controller == h.controller && r.state.restartLog == h.restartLog
          && r.iteration == (if w.available.None? then Healthy
                             else if Pressed(p, w) then ObserverOnly
                             else if p.enabled && h.target.None? then Unarmed else Healthy))
  }

  lemma HealthyExactly(s: State, w: World)
    requires Inv(s) && !s.latched
    ensures Ticked(s, w, ReconcileHealthy(s, w), HealthyIteration(s, w))
  {
    var h := ReconcileHealthy(s, w);
    CheckExactly(s, w);
    HealthyKeeps(s, w);
    AttemptActs(Latch(h, w), true, w);
    if h.controller.Some? { assert Latch(h, w) == Entered(h, h.controller.value, w); }
  }

  // ---------------------------------------------------------------- latched ticks

  /** The reading is at or above the rearm mark, which does not exceed 64 bits. */
  predicate Roomy(p: Policy, w: World) {
    && w.available.Some?
    && var mark := p.memThresholdGib * 1_073_741_824 + p.reserveMib * 1_048_576;
    w.available.value >= mark || w.available.value == U64_MAX
  }

  /** A latched tick opens the latch exactly with headroom and a reserve that is held or can be mapped; otherwise the
      target is reconciled and acted on. */
  ghost predicate Retried(s: State, w: World, r: Stepped) {
    s.controller.Some? &&
    var l := s.controller.value;
    var held := EmergencyRuns.HeldAfter(Emergency.EffectsOf(l.retry, l.ops));
    var ensured := Extended(l, if Roomy(s.policy, w) then [Emergency.OpEnsure(w.maps)] else []);
    && (r.state.latched <==> !(Roomy(s.policy, w) && (held || w.maps)))
    && (!r.state.latched ==>
          && r.iteration == Rearmed && r.state.controller == Some(ensured)
          && r.state.policy == s.policy && r.state.target == s.target && r.state.restartLog == s.restartLog)
    && (r.state.latched ==>
          exists m :: Reconciled(s.(controller := Some(ensured)), w, m) && Acted(m, w, false, r))
  }

  lemma MarkExactly(p: Policy, limits: Limits, w: World)
    requires NewLimits(p.memThresholdGib, p.reserveMib) == Some(limits) && w.available.Some?
    ensures ShouldRearm(w.available.value, limits) <==> Roomy(p, w)
  {
    LimitsExactly(p.memThresholdGib, p.reserveMib);
  }

  lemma EnsuredExactly(s: State, w: World)
    requires s.controller.Some?
    ensures var l := s.controller.value;
            && Ensured(s, w) == s.(controller := Some(Extended(l, [Emergency.OpEnsure(w.maps)])))
            && (Held(Ensured(s, w)) <==> EmergencyRuns.HeldAfter(Emergency.EffectsOf(l.retry, l.ops)) || w.maps)
  {
    var l := s.controller.value;
    Emergency.Performed(l, Emergency.OpEnsure(w.maps));
    EmergencyRuns.ReserveExactly(l.retry, l.ops, true, w.maps);
  }

  lemma RetryExactly(s: State, w: World)
    ensures exists m :: Reconciled(s, w, m) && Acted(m, w, false, LatchedRetry(s, w))
  {
    ActiveExactly(s, w);
    AttemptActs(ReconcileActive(s, w), false, w);
  }

  lemma LatchedExactly(s: State, w: World)
    requires Inv(s) && s.latched
    ensures Retried(s, w, LatchedIteration(s, w))
  {
    var l := s.controller.value;
    assert l.ops + [] == l.ops;
    EnsuredExactly(s, w);
    RetryKeeps(s, w);
    RetryKeeps(Ensured(s, w), w);
    RetryExactly(s, w);
    RetryExactly(Ensured(s, w), w);
    if w.available.Some? { MarkExactly(s.policy, s.limits, w); }
  }

  /** In every history, what the next tick does is fixed by the policy in force, the readings and answers of the
      environment, and what was done before. */
  lemma TickExactly(p: Policy, limits: Limits, events: seq<Event>, w: World)
    requires NewLimits(p.memThresholdGib, p.reserveMib) == Some(limits)
    ensures var s := RunOf(Opened(p, limits), events);
            if s.latched then Retried(s, w, Tick(s, w)) else exists h :: Ticked(s, w, h, Tick(s, w))
  {
    RunIsSafe(p, limits, events);
    var s := RunOf(Opened(p, limits), events);
    if s.latched {
      LatchedExactly(s, w);
    } else {
      HealthyExactly(s, w);
      assert Ticked(s, w, ReconcileHealthy(s, w), Tick(s, w));
    }
  }

  // ---------------------------------------------------------------- restarts

  /** One of these restarts succeeded. */
  ghost predicate Succeeded(log: seq<Restart>) {
    exists a :: 0 <= a < |log| && log[a].ok
  }

  /** One of these restarts failed less than the retry interval ago. */
  ghost predicate JustFailed(retry: U64, log: seq<Restart>, now: U64) {
    exists a :: 0 <= a < |log| && !log[a].ok && now < SatAdd64(log[a].now, retry)
  }

  /** What the restart fields say about the restarts since the latch closed. */
  ghost predicate Recalled(retry: U64, log: seq<Restart>, s: State) {
    && (s.systemdVerified <==> Succeeded(log))
    && forall now: U64 :: JustFailed(retry, log, now) <==> now < s.systemdNext
  }

  lemma NothingRestarted(retry: U64, s: State)
    requires s.systemdNext == 0 && !s.systemdVerified
    ensures Recalled(retry, [], s)
  {
  }

  lemma JustFailedSnoc(retry: U64, log: seq<Restart>, r: Restart, now: U64)
    ensures JustFailed(retry, log + [r], now) <==> JustFailed(retry, log, now) || (!r.ok && now < SatAdd64(r.now, retry))
  {
    var after := log + [r];
    assert after[|log|] == r;
    if JustFailed(retry, log, now) {
      var a :| 0 <= a < |log| && !log[a].ok && now < SatAdd64(log[a].now, retry);
      assert after[a] == log[a];
    }
  }

  lemma SucceededSnoc(log: seq<Restart>, r: Restart)
    ensures Succeeded(log + [r]) <==> Succeeded(log) || r.ok
  {
    var after := log + [r];
    assert after[|log|] == r;
    if Succeeded(log) {
      var a :| 0 <= a < |log| && log[a].ok;
      assert after[a] == log[a];
    }
  }

  lemma RecalledMore(retry: U64, log: seq<Restart>, s: State, next: State, r: Restart)
    requires Recalled(retry, log, s) && Restarted(retry, s, next, r)
    ensures Recalled(retry, log + [r], next)
  {
    SucceededSnoc(log, r);
    forall now: U64 ensures JustFailed(retry, log + [r], now) <==> now < next.systemdNext {
      JustFailedSnoc(retry, log, r, now);
      assert JustFailed(retry, log, now) <==> now < s.systemdNext;
    }
  }

  /** The restarts since the state `from` are those that the fields of `to` recall. */
  ghost predicate RecalledSince(from: State, to: State) {
    && from.restartLog <= to.restartLog
    && Recalled(RetryMillis(to.policy), to.restartLog[|from.restartLog|..], to)
  }

  lemma RecalledLatched(from: State, s: State, e: Event)
    requires Inv(s) && s.latched && Next(s, e).latched && RecalledSince(from, s)
    ensures RecalledSince(from, Next(s, e))
  {
    var next, n, r := Next(s, e), |from.restartLog|, Restart(e.world.now, e.world.restarts);
    StepIsSafe(s, e);
    LatchedStepRestarts(s, e);
    if next.restartLog != s.restartLog {
      assert next.restartLog[n..] == s.restartLog[n..] + [r];
      RecalledMore(RetryMillis(next.policy), s.restartLog[n..], s, next, r);
    }
  }

  lemma RecalledLatching(s: State, e: Event)
    requires Inv(s) && !s.latched && Next(s, e).latched
    ensures RecalledSince(s, Next(s, e))
  {
    var next, n, r := Next(s, e), |s.restartLog|, Restart(e.world.now, e.world.restarts);
    var h := ReconcileHealthy(s, e.world);
    CheckExactly(s, e.world);
    var m := Latch(h, e.world);
    AttemptRestarts(m, true, e.world);
    NothingRestarted(RetryMillis(next.policy), m);
    if next.restartLog == s.restartLog {
      assert next.restartLog[n..] == [];
    } else {
      assert next.restartLog[n..] == [] + [r];
      RecalledMore(RetryMillis(next.policy), [], m, next, r);
    }
  }

  lemma RecalledUnlatched(s: State)
    requires Inv(s) && !s.latched
    ensures RecalledSince(s, s)
  {
    assert s.restartLog[|s.restartLog|..] == [];
    NothingRestarted(RetryMillis(s.policy), s);
  }

  lemma RecalledEvent(start: State, events: seq<Event>, from: State, k: nat)
    requires k < |events| && Inv(RunOf(start, events[..k])) && RunOf(start, events[..k + 1]).latched
    requires RunOf(start, events[..k]).latched || RunOf(start, events[..k]) == from
    requires RecalledSince(from, RunOf(start, events[..k]))
    ensures RecalledSince(from, RunOf(start, events[..k + 1]))
  {
    RunStep(start, events, k);
    if RunOf(start, events[..k]).latched {
      RecalledLatched(from, RunOf(start, events[..k]), events[k]);
    } else {
      RecalledLatching(from, events[k]);
    }
  }

  lemma {:induction false} RecalledFrom(p: Policy, limits: Limits, events: seq<Event>, from: State, k: nat, j: nat)
    requires NewLimits(p.memThresholdGib, p.reserveMib) == Some(limits) && k <= j <= |events|
    requires forall n :: k < n <= j ==> RunOf(Opened(p, limits), events[..n]).latched
    requires RunOf(Opened(p, limits), events[..k]).latched || RunOf(Opened(p, limits), events[..k]) == from
    requires RecalledSince(from, RunOf(Opened(p, limits), events[..k]))
    ensures RecalledSince(from, RunOf(Opened(p, limits), events[..j]))
    decreases j - k
  {
    if k == j {
      assert events[..k] == events[..j];
    } else {
      RunIsSafe(p, limits, events[..k]);
      assert RunOf(Opened(p, limits), events[..k + 1]).latched;
      RecalledEvent(Opened(p, limits), events, from, k);
      RecalledFrom(p, limits, events, from, k + 1, j);
    }
  }

  /** The tick from `s` to `next` restarts its unit exactly if, since `from`, no restart succeeded and none failed less
      than the retry interval ago. */
  ghost predicate RestartsIfDue(from: State, s: State, w: World, next: State) {
    && from.restartLog <= s.restartLog
    && var log := s.restartLog[|from.restartLog|..];
    && next.restartLog == s.restartLog
                          + if Succeeded(log) || JustFailed(Clamp(next.policy.retrySecs * 1_000), log, w.now) then []
                          else [Restart(w.now, w.restarts)]
  }

  lemma LatchedRestart(from: State, s: State, w: World)
    requires Inv(s) && s.latched && RecalledSince(from, s)
    requires var next := Tick(s, w).state; next.latched && next.target.Some? && next.target.value.Systemd?
    ensures RestartsIfDue(from, s, w, Tick(s, w).state)
  {
    var log := s.restartLog[|from.restartLog|..];
    assert JustFailed(RetryMillis(s.policy), log, w.now) <==> w.now < s.systemdNext;
    LatchedExactly(s, w);
    StepIsSafe(s, TickEvent(w));
  }

  lemma LatchingRestart(s: State, w: World)
    requires Inv(s) && !s.latched
    requires var next := Tick(s, w).state; next.latched && next.target.Some? && next.target.value.Systemd?
    ensures RestartsIfDue(s, s, w, Tick(s, w).state)
  {
    HealthyExactly(s, w);
    assert s.restartLog[|s.restartLog|..] == [];
  }

  /** In every history, a tick that leaves the latch closed on a unit restarts that unit exactly if, since the guardian
      was last unlatched, no restart succeeded and none failed less than the retry interval ago. */
  lemma RestartExactly(p: Policy, limits: Limits, events: seq<Event>, i: nat, w: World)
    requires NewLimits(p.memThresholdGib, p.reserveMib) == Some(limits) && i <= |events|
    requires !RunOf(Opened(p, limits), events[..i]).latched
    requires forall k :: i < k <= |events| ==> RunOf(Opened(p, limits), events[..k]).latched
    requires var next := Tick(RunOf(Opened(p, limits), events), w).state; next.latched && next.target.Some? && next.target.value.Systemd?
    ensures RestartsIfDue(RunOf(Opened(p, limits), events[..i]), RunOf(Opened(p, limits), events), w,
                          Tick(RunOf(Opened(p, limits), events), w).state)
  {
    var start := Opened(p, limits);
    var from, s := RunOf(start, events[..i]), RunOf(start, events);
    assert events[..|events|] == events;
    RunIsSafe(p, limits, events[..i]);
    RunIsSafe(p, limits, events);
    RecalledUnlatched(from);
    RecalledFrom(p, limits, events, from, i, |events|);
    if s.latched {
      LatchedRestart(from, s, w);
    } else {
      assert i == |events|;
      LatchingRestart(s, w);
    }
  }
}
