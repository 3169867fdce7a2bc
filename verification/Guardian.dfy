/** The memory guardian: a latch with hysteresis, hot-reloaded policy, and recovery targets. */
module Guardian {
  import opened Machine
  import opened Wrappers
  import opened Thresholds
  import Emergency

  datatype KillAction = CgroupKill | SystemctlRestart

  /** The guardian section of the configuration; `rest` stands for the fields it only passes on. */
  datatype Policy = Policy(
    enabled: bool,
    action: KillAction,
    memThresholdGib: U64,
    reserveMib: U64,
    retrySecs: U64,
    escalation: bool,
    unit: string,
    rest: string)

  /** A cgroup target is identified by its registration and directory; a systemd target by its unit. */
  datatype Target = Cgroup(generation: nat) | Systemd(unit: string)

  datatype Iteration = Healthy | ObserverOnly | Unarmed | Shed | Waiting | Verified | AlreadyEmpty | KillFailed(errno: int) | Rearmed

  /** What the environment answers during one step. */
  datatype World = World(
    requested: Option<Policy>,      // the shared configuration, if it can be read
    executorOpen: bool,
    registered: Option<nat>,        // the registered cgroup, if it can be opened and is populated
    metadata: bool,                 // whether the open directories can be inspected
    maps: bool,                     // whether a reserve can be mapped
    available: Option<U64>,         // the memory reading
    enterUnmaps: bool,
    now: U64,
    answers: Emergency.Answers,
    restarts: bool)                 // whether the unit restart succeeds

  /** A call that restarts the unit, and whether it succeeded. */
  datatype Restart = Restart(now: U64, ok: bool)

  /** The fields of the guardian, what was done with its controller, and two logs of what it did itself:
      the unit restarts it called for, and the rejected policies it printed. */
  datatype State = State(
    policy: Policy,
    limits: Limits,
    target: Option<Target>,
    controller: Option<Emergency.Life>,
    latched: bool,
    systemdNext: U64,
    systemdVerified: bool,
    pressureReported: bool,
    lastRejected: Option<Policy>,
    restartLog: seq<Restart>,
    noticeLog: seq<Policy>)

  // ---------------------------------------------------------------- targets and policies

  function OpenTarget(p: Policy, w: World): Option<Target> {
    match p.action
    case CgroupKill => if w.registered.Some? then Some(Cgroup(w.registered.value)) else None
    case SystemctlRestart => Some(Systemd(p.unit))
  }

  /** The operation is performed on the controller, if there is one. */
  function PerformOn(c: Option<Emergency.Life>, op: Emergency.Op): Option<Emergency.Life> {
    if c.Some? then Some(Emergency.Perform(c.value, op)) else None
  }

  predicate IsVerified(c: Option<Emergency.Life>) {
    c.Some? && Emergency.Current(c.value).verified
  }

  predicate SameTarget(active: Option<Target>, candidate: Target, w: World) {
    active.Some? && active.value.Cgroup? && active.value == candidate && w.metadata
  }

  /** A rejection is printed unless it is the one noted last. */
  function NoteRejection(s: State, p: Policy): State {
    if s.lastRejected == Some(p) then s else s.(lastRejected := Some(p), noticeLog := s.noticeLog + [p])
  }

  /** Reopens the target of the installed policy, if that policy calls for it. */
  function ReconcileActive(s: State, w: World): State {
    if !(s.policy.enabled && (s.target.None? || s.policy.action.CgroupKill?)) then s
    else match OpenTarget(s.policy, w)
         case None => NoteRejection(s, s.policy)
         case Some(target) =>
           if SameTarget(s.target, target, w) then
             if IsVerified(s.controller) then
               s.(lastRejected := None, controller := PerformOn(s.controller, Emergency.OpReset))
             else s.(lastRejected := None)
           else s.(target := Some(target), lastRejected := None, controller := PerformOn(s.controller, Emergency.OpReset))
  }

  function RetryMillis(p: Policy): U64 {
    SatMul64(p.retrySecs, 1_000)
  }

  function Install(s: State, p: Policy, limits: Limits, target: Option<Target>, controller: Option<Emergency.Life>): State {
    s.(policy := p, limits := limits, target := target, controller := controller, systemdNext := 0,
    systemdVerified := false, pressureReported := false, lastRejected := None)
  }

  function TryApply(s: State, p: Policy, w: World): State {
    if p.escalation && !w.executorOpen then NoteRejection(s, p)
    else match NewLimits(p.memThresholdGib, p.reserveMib)
         case None => NoteRejection(s, p)
         case Some(limits) =>
           if !p.enabled then Install(s, p, limits, None, None)
           else if OpenTarget(p, w).None? || !w.maps then NoteRejection(s, p)
           else Install(s, p, limits, OpenTarget(p, w), Some(Emergency.Life(RetryMillis(p), [])))
  }

  function ReconcileHealthy(s: State, w: World): State {
    if w.requested.None? then s
    else if w.requested.value != s.policy then TryApply(s, w.requested.value, w)
    else ReconcileActive(s, w)
  }

  // ---------------------------------------------------------------- iterations

  datatype Stepped = Stepped(state: State, iteration: Iteration)

  function AttemptSystemd(s: State, w: World): (State, Emergency.Outcome) {
    if s.systemdVerified || w.now < s.systemdNext then (s, Emergency.Waiting)
    else
      var called := s.(restartLog := s.restartLog + [Restart(w.now, w.restarts)]);
      if w.restarts then (called.(systemdVerified := true), Emergency.Verified)
      else (called.(systemdNext := SatAdd64(w.now, RetryMillis(s.policy))), Emergency.Retry)
  }

  function AttemptOn(s: State, target: Target, w: World): (State, Emergency.Outcome) {
    match target
    case Cgroup(_) =>
      if s.controller.None? then (s, Emergency.Waiting)
      else
        var op := Emergency.OpAttempt(w.now, w.answers);
        (s.(controller := PerformOn(s.controller, op)), Emergency.Apply(Emergency.Current(s.controller.value), op).outcome)
    case Systemd(_) => AttemptSystemd(s, w)
  }

  function IterationOf(outcome: Emergency.Outcome, entering: bool): Iteration {
    match outcome
    case Verified => Verified
    case AlreadyEmpty => AlreadyEmpty
    case WriteFailed(errno) => KillFailed(errno)
    case _ => if entering then Shed else Waiting
  }

  function AttemptEmergency(s: State, entering: bool, w: World): Stepped {
    if s.target.None? then Stepped(s, Unarmed)
    else
      var (next, outcome) := AttemptOn(s, s.target.value, w);
      Stepped(next, IterationOf(outcome, entering))
  }

  function Latch(s: State, w: World): State {
    s.(latched := true, controller := PerformOn(s.controller, Emergency.OpEnter(w.enterUnmaps)))
  }

  function HealthyIteration(s0: State, w: World): Stepped {
    var s := ReconcileHealthy(s0, w);
    if w.available.None? then Stepped(s, Healthy)
    else if ShouldShed(w.available.value, s.limits) then
      if !s.policy.enabled then Stepped(s.(pressureReported := true), ObserverOnly)
      else AttemptEmergency(Latch(s, w), true, w)
    else
      Stepped(s.(pressureReported := false), if !s.policy.enabled || s.target.Some? then Healthy else Unarmed)
  }

  function LatchedRetry(s: State, w: World): Stepped {
    AttemptEmergency(ReconcileActive(s, w), false, w)
  }

  /** The guardian holds its reserve. */
  predicate Held(s: State) {
    s.controller.Some? && Emergency.Current(s.controller.value).held
  }

  function Ensured(s: State, w: World): State {
    s.(controller := PerformOn(s.controller, Emergency.OpEnsure(w.maps)))
  }

  function LatchedIteration(s: State, w: World): Stepped {
    if w.available.Some? && ShouldRearm(w.available.value, s.limits) then
      if s.controller.None? then Stepped(s.(latched := false), Rearmed)
      else if Held(Ensured(s, w)) then
        Stepped(Ensured(s, w).(latched := false, systemdNext := 0, systemdVerified := false), Rearmed)
      else LatchedRetry(Ensured(s, w), w)
    else LatchedRetry(s, w)
  }

  function Tick(s: State, w: World): Stepped {
    if s.latched then LatchedIteration(s, w) else HealthyIteration(s, w)
  }

  /** The state in which the guardian opens, for a policy whose limits are valid. */
  function Opened(p: Policy, limits: Limits): State {
    State(p, limits, None, if p.enabled then Some(Emergency.Life(RetryMillis(p), [])) else None, false, 0, false, false, None, [], [])
  }

  // ---------------------------------------------------------------- runs

  /** A tick of the monitoring loop, or the configuration check between two ticks. */
  datatype Event = TickEvent(world: World) | CheckEvent(world: World)

  function Next(s: State, e: Event): State {
    match e
    case TickEvent(w) => Tick(s, w).state
    case CheckEvent(w) => if s.latched then s else ReconcileHealthy(s, w)
  }

  function RunOf(start: State, events: seq<Event>): State {
    if events == [] then start else Next(RunOf(start, events[..|events| - 1]), events[|events| - 1])
  }

  lemma RunSnoc(start: State, before: seq<Event>, e: Event)
    ensures RunOf(start, before + [e]) == Next(RunOf(start, before), e)
  {
    assert (before + [e])[..|before|] == before;
  }

  // ---------------------------------------------------------------- the code

  class MemoryGuardian {
    var activePolicy: Policy
    var limits: Limits
    var target: Option<Target>
    var controller: Emergency.EmergencyController?
    var latched: bool
    var systemdNextAttemptMillis: U64
    var systemdVerified: bool
    var observerPressureReported: bool
    var lastRejectedPolicy: Option<Policy>
    ghost const opening: State
    ghost var history: seq<Event>
    ghost var restartLog: seq<Restart>
    ghost var noticeLog: seq<Policy>

    ghost function View(): State
      reads this, controller
    {
      State(activePolicy, limits, target, if controller == null then None else Some(controller.History()), latched,
            systemdNextAttemptMillis, systemdVerified, observerPressureReported, lastRejectedPolicy, restartLog, noticeLog)
    }

    ghost predicate Working()
      reads this, controller
    {
      controller != null ==> controller.Valid()
    }

    /** The guardian is where the events since it opened have brought it. */
    ghost predicate Valid()
      reads this, controller
    {
      && Working() && View() == RunOf(opening, history)
      && opening == Opened(opening.policy, opening.limits)
      && NewLimits(opening.policy.memThresholdGib, opening.policy.reserveMib) == Some(opening.limits)
    }

    constructor (policy: Policy, limits: Limits)
      requires NewLimits(policy.memThresholdGib, policy.reserveMib) == Some(limits)
      ensures Valid() && opening == Opened(policy, limits) && history == [] && (controller != null ==> fresh(controller))
      ensures activePolicy == policy && this.limits == limits && !latched && target.None?
      ensures controller != null <==> policy.enabled
      ensures controller != null ==> controller.History() == Emergency.Life(Clamp(policy.retrySecs * 1_000), [])
    {
      activePolicy, this.limits, target, controller := policy, limits, None, null;
      latched, systemdNextAttemptMillis, systemdVerified := false, 0, false;
      observerPressureReported, lastRejectedPolicy := false, None;
      opening, history, restartLog, noticeLog := Opened(policy, limits), [], [], [];
      if policy.enabled {
        controller := new Emergency.EmergencyController(RetryMillis(policy));
      }
    }

    method NotePolicyRejection(requested: Policy)
      modifies this`lastRejectedPolicy, this`noticeLog
      ensures View() == NoteRejection(old(View()), requested)
    {
      if lastRejectedPolicy != Some(requested) {
        noticeLog := noticeLog + [requested];
        lastRejectedPolicy := Some(requested);
      }
    }

    method ResetController()
      requires Working()
      modifies controller
      ensures Working() && View() == old(View()).(controller := PerformOn(old(View()).controller, Emergency.OpReset))
    {
      if controller != null {
        controller.Reset();
      }
    }

    method ReconcileActiveTarget(w: World)
      requires Working()
      modifies this`target, this`lastRejectedPolicy, this`noticeLog, controller
      ensures Working() && View() == ReconcileActive(old(View()), w)
    {
      if !activePolicy.enabled || !(target.None? || activePolicy.action.CgroupKill?) {
        return;
      }
      var candidate := OpenTarget(activePolicy, w);
      if candidate.None? {
        NotePolicyRejection(activePolicy);
        return;
      }
      lastRejectedPolicy := None;
      if SameTarget(target, candidate.value, w) {
        if controller != null && controller.verified {
          ResetController();
        }
      } else {
        target := candidate;
        ResetController();
      }
    }

    method InstallPolicy(requested: Policy, newLimits: Limits, newTarget: Option<Target>)
      modifies this`activePolicy, this`limits, this`target, this`systemdNextAttemptMillis, this`systemdVerified,
               this`observerPressureReported, this`lastRejectedPolicy
      ensures View() == Install(old(View()), requested, newLimits, newTarget, old(View()).controller)
    {
      activePolicy, limits, target := requested, newLimits, newTarget;
      systemdNextAttemptMillis, systemdVerified := 0, false;
      observerPressureReported, lastRejectedPolicy := false, None;
    }

    method TryApplyPolicy(requested: Policy, w: World)
      requires Working()
      modifies this
      ensures Working() && history == old(history) && View() == TryApply(old(View()), requested, w)
      ensures controller != old(controller) && controller != null ==> fresh(controller)
    {
      if requested.escalation && !w.executorOpen {
        NotePolicyRejection(requested);
        return;
      }
      var newLimits := NewLimits(requested.memThresholdGib, requested.reserveMib);
      if newLimits.None? {
        NotePolicyRejection(requested);
        return;
      }
      if !requested.enabled {
        InstallPolicy(requested, newLimits.value, None);
        controller := null;
        return;
      }
      var newTarget := OpenTarget(requested, w);
      if newTarget.None? || !w.maps {
        NotePolicyRejection(requested);
        return;
      }
      InstallPolicy(requested, newLimits.value, newTarget);
      controller := new Emergency.EmergencyController(RetryMillis(requested));
    }

    method ReconcileHealthyTarget(w: World)
      requires Working()
      modifies this, controller
      ensures Working() && history == old(history) && View() == ReconcileHealthy(old(View()), w)
      ensures controller != old(controller) && controller != null ==> fresh(controller)
    {
      if w.requested.None? {
        return;
      }
      if w.requested.value != activePolicy {
        TryApplyPolicy(w.requested.value, w);
      } else {
        ReconcileActiveTarget(w);
      }
    }

    method AttemptSystemdRestart(w: World) returns (outcome: Emergency.Outcome)
      modifies this`systemdNextAttemptMillis, this`systemdVerified, this`restartLog
      ensures (View(), outcome) == AttemptSystemd(old(View()), w)
    {
      if systemdVerified || w.now < systemdNextAttemptMillis {
        return Emergency.Waiting;
      }
      restartLog := restartLog + [Restart(w.now, w.restarts)];
      if w.restarts {
        systemdVerified := true;
        return Emergency.Verified;
      }
      systemdNextAttemptMillis := SatAdd64(w.now, RetryMillis(activePolicy));
      return Emergency.Retry;
    }

    method AttemptEmergencyAction(entering: bool, w: World) returns (iteration: Iteration)
      requires Working()
      modifies this`systemdNextAttemptMillis, this`systemdVerified, this`restartLog, controller
      ensures Working() && Stepped(View(), iteration) == AttemptEmergency(old(View()), entering, w)
    {
      if target.None? {
        return Unarmed;
      }
      var outcome := Emergency.Waiting;
      match target.value {
        case Cgroup(_) =>
          if controller != null {
            outcome := controller.AttemptKill(w.now, w.answers);
          }
        case Systemd(_) =>
          outcome := AttemptSystemdRestart(w);
      }
      iteration := IterationOf(outcome, entering);
    }

    method EnsureReserve(w: World) returns (ok: bool)
      requires Working() && controller != null
      modifies controller
      ensures Working() && View() == Ensured(old(View()), w) && ok == Held(View())
    {
      ok := controller.Ensure(w.maps);
    }

    method CloseLatch(w: World) returns (iteration: Iteration)
      requires Working()
      modifies this`latched, this`systemdNextAttemptMillis, this`systemdVerified, this`restartLog, controller
      ensures Working() && Stepped(View(), iteration) == AttemptEmergency(Latch(old(View()), w), true, w)
    {
      latched := true;
      if controller != null {
        controller.Enter(w.enterUnmaps);
      }
      assert View() == Latch(old(View()), w);
      iteration := AttemptEmergencyAction(true, w);
    }

    method RetryLatched(w: World) returns (iteration: Iteration)
      requires Working()
      modifies this`target, this`lastRejectedPolicy, this`noticeLog, this`systemdNextAttemptMillis, this`systemdVerified,
               this`restartLog, controller
      ensures Working() && Stepped(View(), iteration) == LatchedRetry(old(View()), w)
    {
      ReconcileActiveTarget(w);
      iteration := AttemptEmergencyAction(false, w);
    }

    method HealthyStep(w: World) returns (iteration: Iteration)
      requires Working()
      modifies this, controller
      ensures Working() && history == old(history) && Stepped(View(), iteration) == HealthyIteration(old(View()), w)
      ensures controller != old(controller) && controller != null ==> fresh(controller)
    {
      ReconcileHealthyTarget(w);
      if w.available.None? {
        return Healthy;
      }
      if ShouldShed(w.available.value, limits) {
        if !activePolicy.enabled {
          observerPressureReported := true;
          return ObserverOnly;
        }
        iteration := CloseLatch(w);
        return;
      }
      observerPressureReported := false;
      iteration := if !activePolicy.enabled || target.Some? then Healthy else Unarmed;
    }

    method LatchedStep(w: World) returns (iteration: Iteration)
      requires Working()
      modifies this, controller
      ensures Working() && history == old(history) && controller == old(controller)
      ensures Stepped(View(), iteration) == LatchedIteration(old(View()), w)
    {
      if w.available.Some? && ShouldRearm(w.available.value, limits) {
        if controller == null {
          latched := false;
          return Rearmed;
        }
        var ok := EnsureReserve(w);
        if ok {
          latched := false;
          systemdNextAttemptMillis, systemdVerified := 0, false;
          return Rearmed;
        }
      }
      iteration := RetryLatched(w);
    }

    /** One tick.  Whatever happened before: policy and limits do not change while latched, the latch closes only
        under pressure with an enabled policy, and opens only with headroom and a reserve. */
    method TickOnce(w: World) returns (iteration: Iteration)
      requires Valid()
      modifies this, controller
      ensures Valid() && history == old(history) + [TickEvent(w)]
      ensures iteration == Tick(old(View()), w).iteration
      ensures controller != old(controller) && controller != null ==> fresh(controller)
      ensures Guarded(old(View()), w, View())
    {
      ghost var before := View();
      RunIsSafe(opening.policy, opening.limits, history);
      StepIsSafe(before, TickEvent(w));
      if latched {
        iteration := LatchedStep(w);
      } else {
        iteration := HealthyStep(w);
      }
      RunSnoc(opening, history, TickEvent(w));
      history := history + [TickEvent(w)];
    }

    /** The configuration check between two ticks. */
    method CheckOnce(w: World)
      requires Valid()
      modifies this, controller
      ensures Valid() && history == old(history) + [CheckEvent(w)]
      ensures controller != old(controller) && controller != null ==> fresh(controller)
    {
      ghost var before := View();
      if !latched {
        ReconcileHealthyTarget(w);
      }
      assert View() == Next(before, CheckEvent(w));
      RunSnoc(opening, history, CheckEvent(w));
      history := history + [CheckEvent(w)];
    }
  }

  // ---------------------------------------------------------------- safety

  /** What every step keeps. */
  ghost predicate Inv(s: State) {
    && NewLimits(s.policy.memThresholdGib, s.policy.reserveMib) == Some(s.limits)
    && (s.policy.enabled <==> s.controller.Some?)
    && (s.controller.Some? ==> s.controller.value.retry == RetryMillis(s.policy))
    && (s.latched ==> s.policy.enabled)
    && (!s.latched && s.policy.enabled ==> Held(s))
    && (!s.latched ==> s.systemdNext == 0 && !s.systemdVerified)
  }

  /** What a step with the environment `w` may do to the latch. */
  ghost predicate Guarded(s: State, w: World, next: State) {
    && Inv(next)
    && (s.latched ==> s.controller.Some? && next.policy == s.policy && next.limits == s.limits)
    && (!s.latched && next.latched ==>
          w.available.Some? && next.policy.enabled && ShouldShed(w.available.value, next.limits))
    && (s.latched && !next.latched ==>
          w.available.Some? && ShouldRearm(w.available.value, s.limits) && Held(next))
  }

  lemma ActiveKeeps(s: State, w: World)
    requires Inv(s)
    ensures var next := ReconcileActive(s, w);
            Inv(next) && next.latched == s.latched && next.policy == s.policy && next.limits == s.limits
  {
    if s.controller.Some? { Emergency.ResetHolds(s.controller.value, Emergency.Current(s.controller.value)); }
  }

  lemma ApplyKeeps(s: State, p: Policy, w: World)
    requires Inv(s) && !s.latched
    ensures Inv(TryApply(s, p, w)) && !TryApply(s, p, w).latched
  {
  }

  lemma HealthyKeeps(s: State, w: World)
    requires Inv(s) && !s.latched
    ensures Inv(ReconcileHealthy(s, w)) && !ReconcileHealthy(s, w).latched
  {
    ActiveKeeps(s, w);
    if w.requested.Some? { ApplyKeeps(s, w.requested.value, w); }
  }

  lemma AttemptKeeps(s: State, entering: bool, w: World)
    requires Inv(s) && s.latched
    ensures var next := AttemptEmergency(s, entering, w).state;
            Inv(next) && next.latched && next.policy == s.policy && next.limits == s.limits
  {
  }

  lemma RetryKeeps(s: State, w: World)
    requires Inv(s) && s.latched
    ensures var next := LatchedRetry(s, w).state;
            Inv(next) && next.latched && next.policy == s.policy && next.limits == s.limits
  {
    ActiveKeeps(s, w);
    AttemptKeeps(ReconcileActive(s, w), false, w);
  }

  lemma LatchedIsSafe(s: State, w: World)
    requires Inv(s) && s.latched
    ensures Guarded(s, w, LatchedIteration(s, w).state)
  {
    RetryKeeps(s, w);
    RetryKeeps(Ensured(s, w), w);
  }

  lemma HealthyIsSafe(s: State, w: World)
    requires Inv(s) && !s.latched
    ensures Guarded(s, w, HealthyIteration(s, w).state)
  {
    HealthyKeeps(s, w);
    var h := ReconcileHealthy(s, w);
    if h.policy.enabled { AttemptKeeps(Latch(h, w), true, w); }
  }

  /** One step keeps the invariant; the policy does not change while latched; and the latch closes
      and opens only when it should, and only in a tick. */
  lemma StepIsSafe(s: State, e: Event)
    requires Inv(s)
    ensures Guarded(s, e.world, Next(s, e))
    ensures e.CheckEvent? ==> Next(s, e).latched == s.latched
  {
    if s.latched {
      LatchedIsSafe(s, e.world);
    } else {
      HealthyKeeps(s, e.world);
      HealthyIsSafe(s, e.world);
    }
  }

  /** The invariant holds in every reachable state. */
  lemma {:induction false} RunIsSafe(p: Policy, limits: Limits, events: seq<Event>)
    requires NewLimits(p.memThresholdGib, p.reserveMib) == Some(limits)
    ensures Inv(RunOf(Opened(p, limits), events))
  {
    if events != [] {
      RunIsSafe(p, limits, events[..|events| - 1]);
      StepIsSafe(RunOf(Opened(p, limits), events[..|events| - 1]), events[|events| - 1]);
    }
  }

  /** During every stretch in which the guardian stays latched, policy and limits are those of its start. */
  lemma {:induction false} PolicyFixedWhileLatched(p: Policy, limits: Limits, events: seq<Event>, i: nat, j: nat)
    requires NewLimits(p.memThresholdGib, p.reserveMib) == Some(limits) && i <= j <= |events|
    requires forall k :: i <= k < j ==> RunOf(Opened(p, limits), events[..k]).latched
    ensures var from, to := RunOf(Opened(p, limits), events[..i]), RunOf(Opened(p, limits), events[..j]);
            from.policy == to.policy && from.limits == to.limits
    decreases j
  {
    if i < j {
      PolicyFixedWhileLatched(p, limits, events, i, j - 1);
      RunIsSafe(p, limits, events[..j - 1]);
      assert events[..j][..j - 1] == events[..j - 1];
      StepIsSafe(RunOf(Opened(p, limits), events[..j - 1]), events[j - 1]);
    }
  }

  /** The reading that closes the latch and the one that opens it again are at least a reserve apart,
      or the rearm mark has saturated. */
  lemma LatchHysteresis(s: State, closing: U64, opening: U64)
    requires Inv(s) && ShouldShed(closing, s.limits) && ShouldRearm(opening, s.limits)
    ensures closing < opening
    ensures closing + s.limits.reserveBytes <= opening || opening == U64_MAX
  {
    ShedExcludesRearm(s.policy.memThresholdGib, s.policy.reserveMib, closing);
  }
}
