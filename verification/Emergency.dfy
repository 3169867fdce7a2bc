/** The emergency reserve and the controller that retries the cgroup kill. */
module Emergency {
  import opened Machine
  import opened Wrappers

  const EINTR: int := 4
  const EIO: int := 5
  const WRITE_TRIES: nat := 3

  /** What one `write` of the kill command returned. */
  datatype WriteReturn = Wrote | WroteNothing | Failed(errno: int)

  datatype KillResult = Killed | KillError(errno: int)

  /** System calls, in the order in which they happen. */
  datatype Effect = Mmap | Munmap(ok: bool) | Write(returned: WriteReturn)

  datatype Outcome = Waiting | Verified | AlreadyEmpty | WriteFailed(errno: int) | Retry

  /** What the environment answers during one attempt: whether the target is known to be empty
      before and after the write, whether the reserve can be unmapped, and the write returns. */
  datatype Answers = Answers(emptyBefore: bool, unmaps: bool, writes: seq<WriteReturn>, emptyAfter: bool)

  datatype Controller = Controller(
    held: bool,
    retryMillis: U64,
    nextAttempt: U64,
    verified: bool,
    lastWrite: Option<KillResult>)

  function NewController(retryMillis: U64): Controller {
    Controller(true, retryMillis, 0, false, None)
  }

  /** The k-th write return of an attempt; an environment that says nothing interrupts the call. */
  function ReturnAt(writes: seq<WriteReturn>, k: nat): WriteReturn {
    if k < |writes| then writes[k] else Failed(EINTR)
  }

  /** The result of writing until something other than an interruption happens, and the number of writes. */
  function KillFrom(writes: seq<WriteReturn>, k: nat): (KillResult, nat)
    decreases WRITE_TRIES - k
  {
    if k >= WRITE_TRIES then (KillError(EINTR), WRITE_TRIES)
    else match ReturnAt(writes, k)
         case Wrote => (Killed, k + 1)
         case WroteNothing => (KillError(EIO), k + 1)
         case Failed(errno) => if errno == EINTR then KillFrom(writes, k + 1) else (KillError(errno), k + 1)
  }

  function WriteEffects(writes: seq<WriteReturn>, n: nat): seq<Effect> {
    if n == 0 then [] else WriteEffects(writes, n - 1) + [Write(ReturnAt(writes, n - 1))]
  }

  function ReleaseEffects(held: bool, unmaps: bool): seq<Effect> {
    if held then [Munmap(unmaps)] else []
  }

  lemma Reassociate(a: seq<Effect>, b: seq<Effect>, c: seq<Effect>, d: seq<Effect>)
    ensures a + (b + c) + d == a + (b + (c + d))
  {
  }

  /** A step of the controller: its new state, what it reports, and its system calls. */
  datatype Step = Step(controller: Controller, outcome: Outcome, effects: seq<Effect>)

  function Attempt(c: Controller, now: U64, answers: Answers): Step {
    if c.verified then Step(c, Waiting, [])
    else if answers.emptyBefore then
      match c.lastWrite
      case Some(Killed) => Step(c.(verified := true), Verified, [])
      case Some(KillError(errno)) => Step(c, WriteFailed(errno), [])
      case None => Step(c.(verified := true), AlreadyEmpty, [])
    else if now < c.nextAttempt then Step(c, Waiting, [])
    else
      var (result, n) := KillFrom(answers.writes, 0);
      var effects := ReleaseEffects(c.held, answers.unmaps) + WriteEffects(answers.writes, n);
      var next := c.(held := c.held && !answers.unmaps, nextAttempt := SatAdd64(now, c.retryMillis), lastWrite := Some(result));
      match result
      case KillError(errno) => Step(next, WriteFailed(errno), effects)
      case Killed => if answers.emptyAfter then Step(next.(verified := true), Verified, effects) else Step(next, Retry, effects)
  }

  function EnterEmergency(c: Controller, unmaps: bool): Step {
    Step(c.(held := c.held && !unmaps), Waiting, ReleaseEffects(c.held, unmaps))
  }

  /** Reallocates a released reserve, if memory can be mapped. */
  function EnsureReserve(c: Controller, maps: bool): Step {
    if c.held || !maps then Step(c, Waiting, []) else Step(c.(held := true), Waiting, [Mmap])
  }

  function ResetGeneration(c: Controller): Step {
    Step(c.(nextAttempt := 0, verified := false, lastWrite := None), Waiting, [])
  }

  // ---------------------------------------------------------------- runs

  datatype Op =
    | OpAttempt(now: U64, answers: Answers)
    | OpEnter(unmaps: bool)
    | OpEnsure(maps: bool)
    | OpReset

  function Apply(c: Controller, op: Op): Step {
    match op
    case OpAttempt(now, answers) => Attempt(c, now, answers)
    case OpEnter(unmaps) => EnterEmergency(c, unmaps)
    case OpEnsure(maps) => EnsureReserve(c, maps)
    case OpReset => ResetGeneration(c)
  }

  /** The controller after some operations, started with a fresh reserve. */
  function ControllerAfter(retry: U64, ops: seq<Op>): Controller {
    if ops == [] then NewController(retry)
    else Apply(ControllerAfter(retry, ops[..|ops| - 1]), ops[|ops| - 1]).controller
  }

  /** Step `i` of the run. */
  function StepAt(retry: U64, ops: seq<Op>, i: nat): Step
    requires i < |ops|
  {
    Apply(ControllerAfter(retry, ops[..i]), ops[i])
  }

  /** All system calls of the run, the first being the mapping of the reserve. */
  function EffectsOf(retry: U64, ops: seq<Op>): seq<Effect> {
    if ops == [] then [Mmap]
    else EffectsOf(retry, ops[..|ops| - 1]) + StepAt(retry, ops, |ops| - 1).effects
  }

  /** A controller, given by its retry interval and everything that was done with it. */
  datatype Life = Life(retry: U64, ops: seq<Op>)

  function Current(l: Life): Controller {
    ControllerAfter(l.retry, l.ops)
  }

  function Perform(l: Life, op: Op): Life {
    l.(ops := l.ops + [op])
  }

  lemma Performed(l: Life, op: Op)
    ensures var step := Apply(Current(l), op);
            && Current(Perform(l, op)) == step.controller
            && EffectsOf(l.retry, Perform(l, op).ops) == EffectsOf(l.retry, l.ops) + step.effects
  {
    assert (l.ops + [op])[..|l.ops|] == l.ops;
  }

  lemma ResetOf(c: Controller)
    ensures Apply(c, OpReset).controller.held == c.held
  {
  }

  lemma ResetHolds(l: Life, c: Controller)
    requires Current(l) == c
    ensures Current(Perform(l, OpReset)).held == c.held
  {
    Performed(l, OpReset);
    ResetOf(c);
  }

  // ---------------------------------------------------------------- the code

  class EmergencyController {
    var held: bool
    const retryMillis: U64
    var nextAttemptMillis: U64
    var verified: bool
    var lastWrite: Option<KillResult>
    ghost var ops: seq<Op>
    ghost var calls: seq<Effect>

    ghost function View(): Controller
      reads this
    {
      Controller(held, retryMillis, nextAttemptMillis, verified, lastWrite)
    }

    ghost function History(): Life
      reads this
    {
      Life(retryMillis, ops)
    }

    /** The controller is where its operations have brought it, and they made exactly these system calls. */
    ghost predicate Valid()
      reads this
    {
      View() == Current(History()) && calls == EffectsOf(retryMillis, ops)
    }

    /** Whatever was done with the controller, in whatever order: reports rest on writes and observations of the
        generation, nothing is written after them, writes are spaced, and the reserve is released before each. */
    lemma Behaves()
      requires Valid()
      ensures Good(retryMillis, GenerationOf(retryMillis, ops)) && ReleasedBeforeWrites(calls)
      ensures held <==> LastReserveCall(calls) != Munmap(true)
    {
      GenerationIsGood(retryMillis, ops);
      ReleasePrecedesWrites(retryMillis, ops);
    }

    constructor (retryMillis: U64)
      ensures Valid() && History() == Life(retryMillis, [])
    {
      held, this.retryMillis, nextAttemptMillis, verified, lastWrite := true, retryMillis, 0, false, None;
      ops, calls := [], [Mmap];
    }

    method Release(unmaps: bool)
      modifies this`held, this`calls
      ensures held == (old(held) && !unmaps) && calls == old(calls) + ReleaseEffects(old(held), unmaps)
    {
      assert calls + [] == calls;
      if !held {
        return;
      }
      held := false;
      calls := calls + [Munmap(unmaps)];
      if !unmaps {
        held := true;
      }
    }

    method KillDirect(unmaps: bool, writes: seq<WriteReturn>) returns (result: KillResult)
      modifies this`held, this`calls
      ensures held == (old(held) && !unmaps) && result == KillFrom(writes, 0).0
      ensures calls == old(calls) + (ReleaseEffects(old(held), unmaps) + WriteEffects(writes, KillFrom(writes, 0).1))
    {
      ghost var before, release := calls, ReleaseEffects(held, unmaps);
      Release(unmaps);
      assert release + [] == release;
      for k := 0 to WRITE_TRIES
        invariant KillFrom(writes, k) == KillFrom(writes, 0)
        invariant held == (old(held) && !unmaps) && calls == before + (release + WriteEffects(writes, k))
      {
        var written := ReturnAt(writes, k);
        Reassociate(before, release, WriteEffects(writes, k), [Write(written)]);
        calls := calls + [Write(written)];
        if written.Wrote? {
          return Killed;
        }
        if written.WroteNothing? {
          return KillError(EIO);
        }
        if written.errno != EINTR {
          return KillError(written.errno);
        }
      }
      return KillError(EINTR);
    }

    method Try(now: U64, answers: Answers) returns (outcome: Outcome)
      modifies this`held, this`nextAttemptMillis, this`verified, this`lastWrite, this`calls
      ensures var step := Attempt(old(View()), now, answers);
              View() == step.controller && outcome == step.outcome && calls == old(calls) + step.effects
    {
      assert calls + [] == calls;
      if verified {
        return Waiting;
      }
      if answers.emptyBefore {
        match lastWrite
        case Some(Killed) =>
          verified := true;
          return Verified;
        case Some(KillError(errno)) => return WriteFailed(errno);
        case None =>
          verified := true;
          return AlreadyEmpty;
      }
      if now < nextAttemptMillis {
        return Waiting;
      }
      nextAttemptMillis := SatAdd64(now, retryMillis);
      var result := KillDirect(answers.unmaps, answers.writes);
      lastWrite := Some(result);
      if result.KillError? {
        return WriteFailed(result.errno);
      }
      if answers.emptyAfter {
        verified := true;
        return Verified;
      }
      return Retry;
    }

    /** One attempt, which reports what its history says. */
    method AttemptKill(now: U64, answers: Answers) returns (outcome: Outcome)
      requires Valid()
      modifies this
      ensures Valid() && ops == old(ops) + [OpAttempt(now, answers)]
      ensures outcome == Attempt(Current(old(History())), now, answers).outcome
    {
      Performed(History(), OpAttempt(now, answers));
      outcome := Try(now, answers);
      ops := ops + [OpAttempt(now, answers)];
    }

    method Enter(unmaps: bool)
      requires Valid()
      modifies this
      ensures Valid() && ops == old(ops) + [OpEnter(unmaps)]
    {
      Performed(History(), OpEnter(unmaps));
      Release(unmaps);
      ops := ops + [OpEnter(unmaps)];
    }

    /** Maps a reserve if none is held, and says whether one is held now. */
    method Ensure(maps: bool) returns (ok: bool)
      requires Valid()
      modifies this
      ensures Valid() && ops == old(ops) + [OpEnsure(maps)] && ok == held
    {
      Performed(History(), OpEnsure(maps));
      assert calls + [] == calls;
      if !held && maps {
        held := true;
        calls := calls + [Mmap];
      }
      ops := ops + [OpEnsure(maps)];
      ok := held;
    }

    method Reset()
      requires Valid()
      modifies this
      ensures Valid() && ops == old(ops) + [OpReset]
    {
      Performed(History(), OpReset);
      assert calls + [] == calls;
      nextAttemptMillis, verified, lastWrite := 0, false, None;
      ops := ops + [OpReset];
    }
  }

  // ---------------------------------------------------------------- what a step writes

  predicate Writes(step: Step) {
    exists i :: 0 <= i < |step.effects| && step.effects[i].Write?
  }

  predicate Killing(step: Step) {
    exists i :: 0 <= i < |step.effects| && step.effects[i] == Write(Wrote)
  }

  lemma {:induction false} KillFromBounds(writes: seq<WriteReturn>, k: nat)
    requires k <= WRITE_TRIES
    ensures var (result, n) := KillFrom(writes, k);
            && k <= n <= WRITE_TRIES && (k < WRITE_TRIES ==> k < n)
            && (result.Killed? <==> k < n && ReturnAt(writes, n - 1).Wrote?)
            && forall i :: k <= i < n - 1 ==> ReturnAt(writes, i) == Failed(EINTR)
    decreases WRITE_TRIES - k
  {
    if k < WRITE_TRIES && ReturnAt(writes, k) == Failed(EINTR) { KillFromBounds(writes, k + 1); }
  }

  lemma {:induction false} WriteEffectsAre(writes: seq<WriteReturn>, n: nat)
    ensures |WriteEffects(writes, n)| == n
    ensures forall i :: 0 <= i < n ==> WriteEffects(writes, n)[i] == Write(ReturnAt(writes, i))
  {
    if n > 0 { WriteEffectsAre(writes, n - 1); }
  }

  lemma KillEffects(held: bool, answers: Answers)
    ensures var (result, n) := KillFrom(answers.writes, 0);
            var effects := ReleaseEffects(held, answers.unmaps) + WriteEffects(answers.writes, n);
            && (exists i :: 0 <= i < |effects| && effects[i].Write?)
            && (result.Killed? <==> exists i :: 0 <= i < |effects| && effects[i] == Write(Wrote))
  {
    var (result, n) := KillFrom(answers.writes, 0);
    KillFromBounds(answers.writes, 0);
    WriteEffectsAre(answers.writes, n);
    var release := ReleaseEffects(held, answers.unmaps);
    var effects := release + WriteEffects(answers.writes, n);
    assert effects[|release| + n - 1] == Write(ReturnAt(answers.writes, n - 1));
    forall i | 0 <= i < |release| + n - 1 ensures effects[i] != Write(Wrote) {
      if i >= |release| {
        assert effects[i] == Write(ReturnAt(answers.writes, i - |release|));
      }
    }
  }

  lemma ReleaseWritesNothing(held: bool, unmaps: bool)
    ensures forall i :: 0 <= i < |ReleaseEffects(held, unmaps)| ==> !ReleaseEffects(held, unmaps)[i].Write?
  {
  }

  /** What the effects of a step say about its write. */
  lemma StepWrites(c: Controller, op: Op)
    ensures var step := Apply(c, op);
            && (Writes(step) <==> op.OpAttempt? && !c.verified && !op.answers.emptyBefore && c.nextAttempt <= op.now)
            && (Writes(step) ==> (Killing(step) <==> step.controller.lastWrite == Some(Killed)))
  {
    if op.OpAttempt? && !c.verified && !op.answers.emptyBefore && c.nextAttempt <= op.now {
      KillEffects(c.held, op.answers);
    } else if op.OpEnter? {
      ReleaseWritesNothing(c.held, op.unmaps);
    }
  }

  // ---------------------------------------------------------------- one generation

  /** What one step did: whether it wrote, whether a write succeeded, what it reported, whether the
      target was seen empty, and when. */
  datatype Entry = Entry(writes: bool, kills: bool, outcome: Outcome, empty: bool, now: U64)

  function EntryOf(c: Controller, op: Op): Entry {
    var step := Apply(c, op);
    Entry(Writes(step), Killing(step), step.outcome,
          op.OpAttempt? && (op.answers.emptyBefore || op.answers.emptyAfter),
          if op.OpAttempt? then op.now else 0)
  }

  /** The steps since the last reset. */
  function GenerationOf(retry: U64, ops: seq<Op>): seq<Entry> {
    if ops == [] || ops[|ops| - 1].OpReset? then []
    else
      var before := ops[..|ops| - 1];
      GenerationOf(retry, before) + [EntryOf(ControllerAfter(retry, before), ops[|ops| - 1])]
  }

  predicate Reports(e: Entry) {
    e.outcome in {Verified, AlreadyEmpty}
  }

  /** One of the first `n` steps wrote with success. */
  ghost predicate SomeKill(trace: seq<Entry>, n: nat)
    requires n <= |trace|
  {
    exists i :: 0 <= i < n && trace[i].kills
  }

  /** None of the first `n` steps wrote. */
  ghost predicate NoWrite(trace: seq<Entry>, n: nat)
    requires n <= |trace|
  {
    forall i :: 0 <= i < n ==> !trace[i].writes
  }

  /** Verified is reported only with the target seen empty, after a write of the generation succeeded;
      AlreadyEmpty only with the target seen empty, if nothing was written; nothing is written after
      either; and writes are the retry interval apart while the clock is below saturation. */
  ghost predicate Good(retry: U64, trace: seq<Entry>) {
    && (forall j :: 0 <= j < |trace| && trace[j].outcome == Verified ==> trace[j].empty && SomeKill(trace, j + 1))
    && (forall j :: 0 <= j < |trace| && trace[j].outcome == AlreadyEmpty ==> trace[j].empty && NoWrite(trace, j + 1))
    && (forall i, j :: 0 <= i < j < |trace| && Reports(trace[i]) ==> !trace[j].writes)
    && (forall i, j :: 0 <= i < j < |trace| && trace[i].writes && trace[j].writes && trace[i].now + retry <= U64_MAX ==>
                         trace[i].now + retry <= trace[j].now)
  }

  /** What the controller knows of the generation. */
  ghost predicate Knows(retry: U64, trace: seq<Entry>, c: Controller) {
    && (c.lastWrite.None? <==> NoWrite(trace, |trace|))
    && (c.lastWrite == Some(Killed) ==> SomeKill(trace, |trace|))
    && (forall i :: 0 <= i < |trace| && Reports(trace[i]) ==> c.verified)
    && (forall i :: 0 <= i < |trace| && trace[i].writes ==> SatAdd64(trace[i].now, retry) <= c.nextAttempt)
  }

  /** How a step relates the controller before and after it to what it did. */
  predicate Relates(retry: U64, c: Controller, e: Entry, next: Controller) {
    && (e.writes ==> !c.verified && c.nextAttempt <= e.now && next.lastWrite.Some? && next.nextAttempt == SatAdd64(e.now, retry))
    && (e.writes && next.lastWrite == Some(Killed) ==> e.kills)
    && (!e.writes ==> next.lastWrite == c.lastWrite && next.nextAttempt == c.nextAttempt)
    && (e.outcome == Verified ==> e.empty && (c.lastWrite == Some(Killed) || e.kills))
    && (e.outcome == AlreadyEmpty ==> e.empty && c.lastWrite.None? && !e.writes)
    && (Reports(e) || c.verified ==> next.verified)
  }

  lemma StepRelates(c: Controller, op: Op)
    requires !op.OpReset?
    ensures Relates(c.retryMillis, c, EntryOf(c, op), Apply(c, op).controller)
  {
    StepWrites(c, op);
  }

  lemma KnowsMore(retry: U64, trace: seq<Entry>, c: Controller, e: Entry, next: Controller)
    requires Knows(retry, trace, c) && Relates(retry, c, e, next)
    ensures Knows(retry, trace + [e], next)
  {
    var after := trace + [e];
    assert after[|trace|] == e;
    assert forall i :: 0 <= i < |trace| ==> after[i] == trace[i];
  }

  lemma StaysGood(retry: U64, trace: seq<Entry>, c: Controller, e: Entry, next: Controller)
    requires Good(retry, trace) && Knows(retry, trace, c) && Relates(retry, c, e, next)
    ensures Good(retry, trace + [e])
  {
    var after := trace + [e];
    assert after[|trace|] == e;
    assert forall i :: 0 <= i < |trace| ==> after[i] == trace[i];
    forall j | 0 <= j < |trace| && trace[j].outcome == Verified ensures SomeKill(after, j + 1) {
      assert SomeKill(trace, j + 1);
    }
    if e.outcome == Verified && !e.kills {
      var i :| 0 <= i < |trace| && trace[i].kills;
      assert after[i].kills;
    }
  }

  lemma {:induction false} RetryStays(retry: U64, ops: seq<Op>)
    ensures ControllerAfter(retry, ops).retryMillis == retry
  {
    if ops != [] { RetryStays(retry, ops[..|ops| - 1]); }
  }

  /** In every run, what was done since the last reset is good. */
  lemma {:induction false} GenerationIsGood(retry: U64, ops: seq<Op>)
    ensures Good(retry, GenerationOf(retry, ops))
    ensures Knows(retry, GenerationOf(retry, ops), ControllerAfter(retry, ops))
  {
    if ops != [] && !ops[|ops| - 1].OpReset? {
      var before, op := ops[..|ops| - 1], ops[|ops| - 1];
      GenerationIsGood(retry, before);
      RetryStays(retry, before);
      var c, trace := ControllerAfter(retry, before), GenerationOf(retry, before);
      StepRelates(c, op);
      StaysGood(retry, trace, c, EntryOf(c, op), Apply(c, op).controller);
      KnowsMore(retry, trace, c, EntryOf(c, op), Apply(c, op).controller);
    }
  }

  // ---------------------------------------------------------------- the reserve is released first

  /** The last call that mapped or unmapped the reserve. */
  function LastReserveCall(log: seq<Effect>): Effect {
    if log == [] then Mmap
    else if log[|log| - 1].Write? then LastReserveCall(log[..|log| - 1])
    else log[|log| - 1]
  }

  /** Before every write the reserve was unmapped, or the kernel refused to. */
  ghost predicate ReleasedBeforeWrites(log: seq<Effect>) {
    forall w :: 0 <= w < |log| && log[w].Write? ==> LastReserveCall(log[..w]).Munmap?
  }

  lemma EffectKeeps(log: seq<Effect>, e: Effect)
    requires ReleasedBeforeWrites(log) && (e.Write? ==> LastReserveCall(log).Munmap?)
    ensures ReleasedBeforeWrites(log + [e])
    ensures LastReserveCall(log + [e]) == if e.Write? then LastReserveCall(log) else e
  {
    var after := log + [e];
    assert after[..|log|] == log;
    forall w | 0 <= w < |after| && after[w].Write? ensures LastReserveCall(after[..w]).Munmap? {
      if w < |log| { assert after[..w] == log[..w]; }
    }
  }

  lemma {:induction false} WritesKeep(log: seq<Effect>, writes: seq<WriteReturn>, n: nat)
    requires ReleasedBeforeWrites(log) && LastReserveCall(log).Munmap?
    ensures ReleasedBeforeWrites(log + WriteEffects(writes, n)) && LastReserveCall(log + WriteEffects(writes, n)) == LastReserveCall(log)
  {
    if n == 0 {
      assert log + [] == log;
    } else {
      WritesKeep(log, writes, n - 1);
      var e := Write(ReturnAt(writes, n - 1));
      assert log + WriteEffects(writes, n) == log + WriteEffects(writes, n - 1) + [e];
      EffectKeeps(log + WriteEffects(writes, n - 1), e);
    }
  }

  /** The reserve is held exactly when it was not successfully unmapped last. */
  ghost predicate LogFits(c: Controller, log: seq<Effect>) {
    ReleasedBeforeWrites(log) && (c.held <==> LastReserveCall(log) != Munmap(true))
  }

  lemma KillFits(held: bool, unmaps: bool, writes: seq<WriteReturn>, n: nat, log: seq<Effect>)
    requires ReleasedBeforeWrites(log) && (held <==> LastReserveCall(log) != Munmap(true))
    ensures var after := log + (ReleaseEffects(held, unmaps) + WriteEffects(writes, n));
            ReleasedBeforeWrites(after) && (held && !unmaps <==> LastReserveCall(after) != Munmap(true))
  {
    var release := ReleaseEffects(held, unmaps);
    assert log + [] == log;
    if held { EffectKeeps(log, Munmap(unmaps)); }
    WritesKeep(log + release, writes, n);
    assert log + (release + WriteEffects(writes, n)) == log + release + WriteEffects(writes, n);
  }

  /** An attempt calls nothing and keeps the reserve, or releases it and writes. */
  lemma AttemptCalls(c: Controller, now: U64, answers: Answers)
    ensures var step := Attempt(c, now, answers);
            if c.verified || answers.emptyBefore || now < c.nextAttempt then step.effects == [] && step.controller.held == c.held
            else
              && step.effects == ReleaseEffects(c.held, answers.unmaps) + WriteEffects(answers.writes, KillFrom(answers.writes, 0).1)
              && step.controller.held == (c.held && !answers.unmaps)
  {
  }

  lemma AttemptFits(c: Controller, now: U64, answers: Answers, log: seq<Effect>)
    requires LogFits(c, log)
    ensures var step := Attempt(c, now, answers); LogFits(step.controller, log + step.effects)
  {
    AttemptCalls(c, now, answers);
    if c.verified || answers.emptyBefore || now < c.nextAttempt {
      assert log + [] == log;
    } else {
      KillFits(c.held, answers.unmaps, answers.writes, KillFrom(answers.writes, 0).1, log);
    }
  }

  lemma EnterFits(c: Controller, unmaps: bool, log: seq<Effect>)
    requires LogFits(c, log)
    ensures var step := EnterEmergency(c, unmaps); LogFits(step.controller, log + step.effects)
  {
    assert log + [] == log;
    if c.held { EffectKeeps(log, Munmap(unmaps)); }
  }

  lemma EnsureFits(c: Controller, maps: bool, log: seq<Effect>)
    requires LogFits(c, log)
    ensures var step := EnsureReserve(c, maps); LogFits(step.controller, log + step.effects)
  {
    assert log + [] == log;
    if !c.held && maps { EffectKeeps(log, Mmap); }
  }

  lemma StepFits(c: Controller, op: Op, log: seq<Effect>)
    requires LogFits(c, log)
    ensures LogFits(Apply(c, op).controller, log + Apply(c, op).effects)
  {
    match op
    case OpAttempt(now, answers) => AttemptFits(c, now, answers, log);
    case OpEnter(unmaps) => EnterFits(c, unmaps, log);
    case OpEnsure(maps) => EnsureFits(c, maps, log);
    case OpReset => assert log + [] == log;
  }

  /** In every run the reserve is released before each write. */
  lemma {:induction false} ReleasePrecedesWrites(retry: U64, ops: seq<Op>)
    ensures LogFits(ControllerAfter(retry, ops), EffectsOf(retry, ops))
  {
    if ops == [] {
      assert forall w :: 0 <= w < |[Mmap]| ==> ![Mmap][w].Write?;
    } else {
      var before := ops[..|ops| - 1];
      ReleasePrecedesWrites(retry, before);
      StepFits(ControllerAfter(retry, before), ops[|ops| - 1], EffectsOf(retry, before));
    }
  }
}
