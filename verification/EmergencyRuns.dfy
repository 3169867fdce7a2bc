/** What every operation of the emergency controller must do, given only what was done before it: its system
    calls, and what it reports. */
module EmergencyRuns {
  import opened Machine
  import opened Wrappers
  import opened Emergency

  /** What a `write` of the kill command comes to. */
  function Meaning(r: WriteReturn): KillResult {
    match r
    case Wrote => Killed
    case WroteNothing => KillError(5)
    case Failed(errno) => KillError(errno)
  }

  /** One attempt: its system calls, what it reported, and when. */
  datatype Attempted = Attempted(calls: seq<Effect>, outcome: Outcome, now: U64)

  /** The attempts since the last reset. */
  function AttemptsOf(retry: U64, ops: seq<Op>): seq<Attempted> {
    if ops == [] || ops[|ops| - 1].OpReset? then []
    else
      var before, op := ops[..|ops| - 1], ops[|ops| - 1];
      if !op.OpAttempt? then AttemptsOf(retry, before)
      else
        var step := Apply(ControllerAfter(retry, before), op);
        AttemptsOf(retry, before) + [Attempted(step.effects, step.outcome, op.now)]
  }

  /** The result of the write that ends the calls, if one does. */
  function ResultIn(calls: seq<Effect>): Option<KillResult> {
    if calls != [] && calls[|calls| - 1].Write? then Some(Meaning(calls[|calls| - 1].returned)) else None
  }

  /** The result of the last write of these attempts, if there is one. */
  function LastResult(tried: seq<Attempted>): Option<KillResult> {
    if tried == [] then None
    else
      var result := ResultIn(tried[|tried| - 1].calls);
      if result.Some? then result else LastResult(tried[..|tried| - 1])
  }

  /** The generation was reported as dealt with. */
  ghost predicate Reported(tried: seq<Attempted>) {
    exists i :: 0 <= i < |tried| && tried[i].outcome in {Verified, AlreadyEmpty}
  }

  /** A write of these attempts is less than the retry interval ago. */
  ghost predicate Early(retry: U64, tried: seq<Attempted>, now: U64) {
    exists i :: 0 <= i < |tried| && ResultIn(tried[i].calls).Some? && now < SatAdd64(tried[i].now, retry)
  }

  /** What the controller's fields say about the attempts. */
  ghost predicate Recalls(retry: U64, tried: seq<Attempted>, c: Controller) {
    && (c.verified <==> Reported(tried))
    && c.lastWrite == LastResult(tried)
    && forall now: U64 :: Early(retry, tried, now) <==> now < c.nextAttempt
  }

  // ---------------------------------------------------------------- one attempt

  /** Up to three writes, the first after a release if the reserve is held; only an interrupted write (error 4)
      is followed by another. */
  ghost predicate WrittenOut(calls: seq<Effect>, held: bool, answers: Answers) {
    var first := if held then 1 else 0;
    && first < |calls| <= first + 3
    && (held ==> calls[0] == Munmap(answers.unmaps))
    && (forall i :: first <= i < |calls| ==> calls[i] == Write(ReturnAt(answers.writes, i - first)))
    && (forall i :: first <= i < |calls| ==> (i + 1 < |calls| <==> calls[i] == Write(Failed(4)) && i + 1 - first < 3))
  }

  lemma {:induction false} KillFromExactly(writes: seq<WriteReturn>, k: nat)
    requires k < 3
    ensures var (result, n) := KillFrom(writes, k);
            && k < n <= 3 && result == Meaning(ReturnAt(writes, n - 1))
            && (forall i :: k <= i < n ==> (i + 1 < n <==> ReturnAt(writes, i) == Failed(4) && i + 1 < 3))
    decreases 3 - k
  {
    if k < 2 && ReturnAt(writes, k) == Failed(4) {
      KillFromExactly(writes, k + 1);
    }
  }

  lemma KillIsWrittenOut(held: bool, answers: Answers)
    ensures var (result, n) := KillFrom(answers.writes, 0);
            var calls := ReleaseEffects(held, answers.unmaps) + WriteEffects(answers.writes, n);
            WrittenOut(calls, held, answers) && ResultIn(calls) == Some(result)
  {
    var (result, n) := KillFrom(answers.writes, 0);
    KillFromExactly(answers.writes, 0);
    WriteEffectsAre(answers.writes, n);
    var release := ReleaseEffects(held, answers.unmaps);
    var calls := release + WriteEffects(answers.writes, n);
    forall i | |release| <= i < |calls| ensures calls[i] == Write(ReturnAt(answers.writes, i - |release|)) {
      assert calls[i] == WriteEffects(answers.writes, n)[i - |release|];
    }
  }

  /** What an attempt must do and report, given the earlier attempts of its generation. */
  ghost predicate AttemptedWell(retry: U64, tried: seq<Attempted>, held: bool, now: U64, answers: Answers, calls: seq<Effect>, outcome: Outcome) {
    if Reported(tried) then calls == [] && outcome == Waiting
    else if answers.emptyBefore then
      && calls == []
      && outcome == match LastResult(tried)
                    case None => AlreadyEmpty
                    case Some(Killed) => Verified
                    case Some(KillError(errno)) => WriteFailed(errno)
    else if Early(retry, tried, now) then calls == [] && outcome == Waiting
    else
      && WrittenOut(calls, held, answers)
      && outcome == match ResultIn(calls).value
                    case Killed => if answers.emptyAfter then Verified else Retry
                    case KillError(errno) => WriteFailed(errno)
  }

  lemma AttemptStep(retry: U64, tried: seq<Attempted>, c: Controller, now: U64, answers: Answers)
    requires Recalls(retry, tried, c)
    ensures var step := Attempt(c, now, answers); AttemptedWell(retry, tried, c.held, now, answers, step.effects, step.outcome)
  {
    assert Early(retry, tried, now) <==> now < c.nextAttempt;
    KillIsWrittenOut(c.held, answers);
  }

  // ---------------------------------------------------------------- whole runs

  lemma EarlySnoc(retry: U64, tried: seq<Attempted>, a: Attempted, now: U64)
    ensures Early(retry, tried + [a], now) <==>
            Early(retry, tried, now) || (ResultIn(a.calls).Some? && now < SatAdd64(a.now, retry))
  {
    var after := tried + [a];
    assert after[|tried|] == a;
    if Early(retry, tried, now) {
      var i :| 0 <= i < |tried| && ResultIn(tried[i].calls).Some? && now < SatAdd64(tried[i].now, retry);
      assert after[i] == tried[i];
    }
  }

  lemma ReportedSnoc(tried: seq<Attempted>, a: Attempted)
    ensures Reported(tried + [a]) <==> Reported(tried) || a.outcome in {Verified, AlreadyEmpty}
  {
    var after := tried + [a];
    assert after[|tried|] == a;
    if Reported(tried) {
      var i :| 0 <= i < |tried| && tried[i].outcome in {Verified, AlreadyEmpty};
      assert after[i] == tried[i];
    }
  }

  /** What an attempt leaves in the fields. */
  lemma AttemptFields(c: Controller, now: U64, answers: Answers)
    ensures var step := Attempt(c, now, answers);
            var writes := !c.verified && !answers.emptyBefore && c.nextAttempt <= now;
            && (ResultIn(step.effects).Some? <==> writes)
            && step.controller.lastWrite == (if writes then ResultIn(step.effects) else c.lastWrite)
            && step.controller.nextAttempt == (if writes then SatAdd64(now, c.retryMillis) else c.nextAttempt)
            && (step.controller.verified <==> c.verified || step.outcome in {Verified, AlreadyEmpty})
  {
    KillIsWrittenOut(c.held, answers);
  }

  lemma LastResultSnoc(tried: seq<Attempted>, a: Attempted)
    ensures LastResult(tried + [a]) == if ResultIn(a.calls).Some? then ResultIn(a.calls) else LastResult(tried)
  {
    assert (tried + [a])[..|tried|] == tried;
  }

  lemma RecallsMore(retry: U64, tried: seq<Attempted>, c: Controller, now: U64, answers: Answers)
    requires Recalls(retry, tried, c) && c.retryMillis == retry
    ensures var step := Attempt(c, now, answers);
            Recalls(retry, tried + [Attempted(step.effects, step.outcome, now)], step.controller)
  {
    var step := Attempt(c, now, answers);
    var a := Attempted(step.effects, step.outcome, now);
    AttemptFields(c, now, answers);
    ReportedSnoc(tried, a);
    LastResultSnoc(tried, a);
    forall later: U64 ensures Early(retry, tried + [a], later) <==> later < step.controller.nextAttempt {
      EarlySnoc(retry, tried, a, later);
      assert Early(retry, tried, later) <==> later < c.nextAttempt;
    }
  }

  lemma {:induction false} RunRecalls(retry: U64, ops: seq<Op>)
    ensures Recalls(retry, AttemptsOf(retry, ops), ControllerAfter(retry, ops))
  {
    if ops == [] {
      NothingTried(retry);
    } else {
      var before, op := ops[..|ops| - 1], ops[|ops| - 1];
      RunRecalls(retry, before);
      RetryStays(retry, before);
      if op.OpReset? {
        NothingTried(retry);
      } else if op.OpAttempt? {
        RecallsMore(retry, AttemptsOf(retry, before), ControllerAfter(retry, before), op.now, op.answers);
      }
    }
  }

  lemma NothingTried(retry: U64)
    ensures !Reported([]) && LastResult([]).None? && forall now: U64 :: !Early(retry, [], now)
  {
  }

  /** Whether the reserve is held, from the log of system calls. */
  predicate HeldAfter(calls: seq<Effect>) {
    LastReserveCall(calls) != Munmap(true)
  }

  /** After any operations, an attempt makes exactly the calls, and reports exactly the outcome, that the calls and
      reports of its generation, the clock and the environment's answers require. */
  lemma AttemptExactly(retry: U64, ops: seq<Op>, now: U64, answers: Answers)
    ensures var step := Apply(ControllerAfter(retry, ops), OpAttempt(now, answers));
            AttemptedWell(retry, AttemptsOf(retry, ops), HeldAfter(EffectsOf(retry, ops)), now, answers, step.effects, step.outcome)
  {
    RunRecalls(retry, ops);
    ReleasePrecedesWrites(retry, ops);
    AttemptStep(retry, AttemptsOf(retry, ops), ControllerAfter(retry, ops), now, answers);
  }

  /** After any operations, entering the emergency releases the reserve exactly if it is held, ensuring it maps one
      exactly if none is held and memory can be had, and a reset makes no call. */
  lemma ReserveExactly(retry: U64, ops: seq<Op>, unmaps: bool, maps: bool)
    ensures var c, held := ControllerAfter(retry, ops), HeldAfter(EffectsOf(retry, ops));
            && Apply(c, OpEnter(unmaps)).effects == (if held then [Munmap(unmaps)] else [])
            && Apply(c, OpEnsure(maps)).effects == (if !held && maps then [Mmap] else [])
            && Apply(c, OpReset).effects == []
            && (Apply(c, OpEnsure(maps)).controller.held <==> held || maps)
  {
    ReleasePrecedesWrites(retry, ops);
  }
}
