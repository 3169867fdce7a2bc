/** Whole runs of the semantic stage: what every event makes it read and judge, and exactly when the detector
    reports an approximate repetition. */
module SemanticRuns {
  import opened Machine
  import opened Wrappers
  import opened LoopSetup
  import opened SemanticWindows
  import opened SemanticTrace
  import opened LoopChannel
  import opened LoopDetector
  import opened LoopRuns

  // ---------------------------------------------------------------- one event

  predicate Approximate(fired: Option<Detection>) {
    fired.Some? && fired.value.reason.ApproximateRepetition?
  }

  /** One of the stages before the semantic one has fired. */
  predicate Forestalled(fired: Option<Detection>) {
    fired.Some? && fired.value.reason in {RepeatedLine, RepeatedTokenWindow, SuffixCycle}
  }

  /** An event either leaves the semantic fields alone, an earlier stage having fired, or runs the semantic stage on them. */
  predicate Outcome(setup: Setup, before: Semantic, e: Event, r: Observed) {
    var done := SemanticStage(setup, before, e);
    if Forestalled(r.fired) then r.state.semantic == before && r.marks == []
    else
      && r.state.semantic == done.semantic && r.marks == done.marks
      && (if done.fired.Some? then r.fired == done.fired else !Approximate(r.fired))
  }

  lemma SuffixOutcome(setup: Setup, s: ChannelState, e: Event)
    ensures Outcome(setup, s.semantic, e, AfterTokens(setup, s, e))
  {
    var suffix := SuffixStage(setup, s, e);
    assert suffix.state.semantic == s.semantic;
    SemanticReason(setup, s.semantic, e.fragment);
  }

  lemma TokenOutcome(setup: Setup, s: ChannelState, e: Event)
    ensures Outcome(setup, s.semantic, e, AfterLines(setup, s, e))
  {
    TokenReason(setup, s.tokens, e.fragment);
    var token := TokenStage(setup, s, e);
    assert token.state.semantic == s.semantic;
    if token.fired.None? {
      SuffixOutcome(setup, token.state, e);
    }
  }

  lemma SemanticOutcome(setup: Setup, s: ChannelState, e: Event)
    ensures Outcome(setup, s.semantic, e, Observe(setup, s, e))
  {
    LineReason(setup, s.lines, s.bytes, e.fragment);
    var line := LineStage(setup, Arrive(s, e), s.bytes, e);
    assert line.state.semantic == s.semantic;
    if line.fired.None? {
      TokenOutcome(setup, line.state, e);
    }
  }

  /** What an event offers the semantic stage: its text, and a flush unless it is a fragment or a completed value. */
  function Offered(e: Event): seq<Mark> {
    Reads(e.fragment) + if e.kind in {Boundary, Check, Tick} then [Flush] else []
  }

  lemma StageIsTraced(setup: Setup, s: Semantic, e: Event, earlier: seq<Mark>)
    requires Traced(setup, s, earlier) && Settled(setup, earlier) && e.channel.Reasoning? && setup.config.semanticEnabled
    ensures EventTraced(setup, earlier, Offered(e), SemanticStage(setup, s, e))
  {
    ScanIsTraced(setup, s, earlier, e.fragment);
    var r := ScanSemantic(setup, s, e.fragment);
    if !Flushes(e.kind) {
      assert Reads(e.fragment) + [] == Reads(e.fragment);
      ScanEnds(setup, earlier, e.fragment, r);
    } else if r.stopped {
      StopsEarly(setup, earlier, e.fragment, r);
    } else {
      FlushIsTraced(setup, earlier, e.fragment, r, SemanticWindows.FinishSemanticToken(setup, r.semantic));
    }
  }

  lemma NoMarksElsewhere(setup: Setup, s: ChannelState, e: Event)
    requires !e.channel.Reasoning? || !setup.config.semanticEnabled
    ensures var r := Observe(setup, s, e);
            r.marks == [] && r.state.semantic == s.semantic && !Approximate(r.fired)
  {
    SemanticOutcome(setup, s, e);
  }

  // ---------------------------------------------------------------- runs

  /** The event reaches the semantic stage: it is reasoning text, or an event without text that is no fragment, the
      stage is enabled, and none of the stages before it has sent a signal. */
  predicate Reaches(setup: Setup, e: Event, signal: Option<Signal>) {
    && e.channel.Reasoning? && setup.config.semanticEnabled && !(e.kind.Fragment? && e.fragment == "")
    && !(signal.Some? && Forestalled(Some(signal.value.detection)))
  }

  /** The approximate-repetition signal among what a step sent. */
  function Reported(step: Step): Option<Signal> {
    if step.signal.Some? && step.signal.value.detection.reason.ApproximateRepetition? then step.signal else None
  }

  /** What one more event makes the stage do after the earlier marks, and what it reports. */
  ghost predicate StepJudged(setup: Setup, earlier: seq<Mark>, e: Event, step: Step) {
    var all := earlier + step.marks;
    && Traced(setup, step.detector.reasoning.semantic, all) && Settled(setup, all)
    && (if Reaches(setup, e, step.signal) then Consumes(setup, earlier, step.marks, Offered(e)) else step.marks == [])
    && Reported(step) == (if step.marks != [] && Detects(setup, all) then
                            Some(Signal(Reasoning, e.kind, Detection(ApproximateRepetition, all[|all| - 1].similarity,
                                                                     setup.config.similarityThresholdPercent, false)))
                          else None)
  }

  lemma ObserveJudged(setup: Setup, s: ChannelState, e: Event, earlier: seq<Mark>)
    requires Traced(setup, s.semantic, earlier) && Settled(setup, earlier) && e.channel.Reasoning? && setup.config.semanticEnabled
    ensures var r := Observe(setup, s, e);
            if Forestalled(r.fired) then r.marks == [] && r.state.semantic == s.semantic
            else
              && EventTraced(setup, earlier, Offered(e), SemanticDone(r.state.semantic, r.marks, if Approximate(r.fired) then r.fired else None))
  {
    SemanticOutcome(setup, s, e);
    StageIsTraced(setup, s.semantic, e, earlier);
  }

  lemma QuietStep(setup: Setup, d: Detector, e: Event, earlier: seq<Mark>)
    requires Traced(setup, d.reasoning.semantic, earlier) && Settled(setup, earlier)
    requires !e.channel.Reasoning? || !setup.config.semanticEnabled || Ignored(e)
    ensures StepJudged(setup, earlier, e, Observes(setup, d, e))
  {
    assert earlier + [] == earlier;
    if !Ignored(e) {
      NoMarksElsewhere(setup, StateOf(d, e.channel), e);
      SameChannel(setup, d, e);
    }
    if e.channel != Reasoning || Ignored(e) {
      OtherChannel(setup, d, e, Reasoning);
    }
  }

  lemma ReasoningStep(setup: Setup, d: Detector, e: Event, earlier: seq<Mark>)
    requires Traced(setup, d.reasoning.semantic, earlier) && Settled(setup, earlier)
    requires e.channel.Reasoning? && setup.config.semanticEnabled && !Ignored(e)
    ensures StepJudged(setup, earlier, e, Observes(setup, d, e))
  {
    var r, step := Observe(setup, d.reasoning, e), Observes(setup, d, e);
    SameChannel(setup, d, e);
    ObserveJudged(setup, d.reasoning, e, earlier);
    if Forestalled(r.fired) {
      assert earlier + step.marks == earlier;
    } else {
      assert step.marks == r.marks && Reaches(setup, e, step.signal);
    }
  }

  lemma {:induction false} RunIsTraced(setup: Setup, events: seq<Event>)
    ensures Traced(setup, RunOf(setup, events).detector.reasoning.semantic, RunOf(setup, events).marks)
    ensures Settled(setup, RunOf(setup, events).marks)
    decreases |events|, 1
  {
    if events == [] {
      NothingRead(setup);
    } else {
      JudgedExactly(setup, events);
    }
  }

  /** In every run, each event that reaches the semantic stage makes it read the text it brings, up to a stop, and
      judge exactly the windows then due; it reports an approximate repetition exactly if the last of them ends the
      required number of similar windows. */
  lemma {:induction false} JudgedExactly(setup: Setup, events: seq<Event>)
    requires events != []
    ensures var before, e := RunOf(setup, events[..|events| - 1]), events[|events| - 1];
            StepJudged(setup, before.marks, e, Last(setup, before, e))
    decreases |events|, 0
  {
    var before, e := RunOf(setup, events[..|events| - 1]), events[|events| - 1];
    RunIsTraced(setup, events[..|events| - 1]);
    if e.channel.Reasoning? && setup.config.semanticEnabled && !Ignored(e) {
      ReasoningStep(setup, before.detector, e, before.marks);
    } else {
      QuietStep(setup, before.detector, e, before.marks);
    }
  }

  /** In every run the streak is the length of the trailing run of similar windows and the history is bounded. */
  lemma StreakIsTrailingRun(setup: Setup, events: seq<Event>)
    ensures var s, marks := RunOf(setup, events).detector.reasoning.semantic, RunOf(setup, events).marks;
            && s.streak == Min(TrailingRun(Similarities(marks), setup.config.similarityThresholdPercent), U32_MAX)
            && |s.history| <= Min(if setup.config.semanticHistoryWindows >= 1 then setup.config.semanticHistoryWindows else 1, 256)
  {
    RunIsTraced(setup, events);
    ComparedIsBounded(setup, Kept(setup, RunOf(setup, events).marks));
  }
}
