/** The detector over all channels, and what holds over whole runs of it. */
module LoopDetector {
  import opened Machine
  import opened Wrappers
  import opened Utf8
  import opened LoopSetup
  import opened LineScanner
  import opened TokenScanner
  import opened SemanticWindows
  import opened LoopChannel

  const SUMMARY_LIMIT: nat := 8

  datatype Signal = Signal(channel: Channel, kind: EventKind, detection: Detection)

  datatype Detector = Detector(
    content: ChannelState,
    reasoning: ChannelState,
    toolArguments: ChannelState,
    summary: seq<Signal>,
    signalCount: U64,
    cappedSignalCount: U64)

  const NewDetector := Detector(NewChannel, NewChannel, NewChannel, [], 0, 0)

  function StateOf(d: Detector, channel: Channel): ChannelState
    requires !channel.ToolFingerprint?
  {
    match channel
    case Content => d.content
    case Reasoning => d.reasoning
    case ToolArguments => d.toolArguments
  }

  function WithState(d: Detector, channel: Channel, s: ChannelState): Detector
    requires !channel.ToolFingerprint?
  {
    match channel
    case Content => d.(content := s)
    case Reasoning => d.(reasoning := s)
    case ToolArguments => d.(toolArguments := s)
  }

  function Record(d: Detector, signal: Signal): Detector {
    var counted := d.(signalCount := SatAdd64(d.signalCount, 1));
    if |d.summary| < SUMMARY_LIMIT then counted.(summary := d.summary + [signal])
    else counted.(cappedSignalCount := SatAdd64(d.cappedSignalCount, 1))
  }

  /** Events that no channel sees: empty fragments, and fingerprint events. */
  predicate Ignored(e: Event) {
    e.channel.ToolFingerprint? || (e.fragment == "" && e.kind.Fragment?)
  }

  /** One event: the new detector, the signal emitted, and what the semantic stage did. */
  datatype Step = Step(detector: Detector, signal: Option<Signal>, marks: seq<Mark>)

  function Observes(setup: Setup, d: Detector, e: Event): Step {
    if Ignored(e) then Step(d, None, [])
    else
      var r := Observe(setup, StateOf(d, e.channel), e);
      var next := WithState(d, e.channel, r.state);
      match r.fired
      case None => Step(next, None, r.marks)
      case Some(detection) =>
        var signal := Signal(e.channel, e.kind, detection);
        Step(Record(next, signal), Some(signal), r.marks)
  }

  class ChannelizedLoopDetector {
    const setup: Setup
    const content: LoopChannelState
    const reasoning: LoopChannelState
    const toolArguments: LoopChannelState
    var signals: seq<Signal>
    var signalCount: U64
    var cappedSignalCount: U64
    ghost var history: seq<Event>
    ghost var emitted: seq<Signal>
    ghost var done: seq<Mark>

    ghost predicate Separate()
      reads this, content, reasoning, toolArguments
    {
      && ValidSetup(setup)
      && content != reasoning && content != toolArguments && reasoning != toolArguments
      && content.Valid() && reasoning.Valid() && toolArguments.Valid()
    }

    /** The detector is where the events so far have brought it. */
    ghost predicate Valid()
      reads this, content, reasoning, toolArguments
    {
      Separate() && Run(View(), emitted, done) == RunOf(setup, history)
    }

    ghost function View(): Detector
      reads this, content, reasoning, toolArguments
    {
      Detector(content.State(), reasoning.State(), toolArguments.State(), signals, signalCount, cappedSignalCount)
    }

    constructor (setup: Setup)
      requires ValidSetup(setup)
      ensures Valid() && history == [] && this.setup == setup
      ensures fresh(content) && fresh(reasoning) && fresh(toolArguments)
    {
      this.setup := setup;
      content := new LoopChannelState();
      reasoning := new LoopChannelState();
      toolArguments := new LoopChannelState();
      signals, signalCount, cappedSignalCount := [], 0, 0;
      history, emitted, done := [], [], [];
    }

    method RecordSignal(signal: Signal)
      modifies this`signals, this`signalCount, this`cappedSignalCount
      ensures View() == Record(old(View()), signal)
    {
      signalCount := SatAdd64(signalCount, 1);
      if |signals| < SUMMARY_LIMIT {
        signals := signals + [signal];
      } else {
        cappedSignalCount := SatAdd64(cappedSignalCount, 1);
      }
    }

    method ObserveChannel(e: Event) returns (signal: Option<Signal>, ghost marks: seq<Mark>)
      requires Separate()
      modifies this`signals, this`signalCount, this`cappedSignalCount, content, reasoning, toolArguments
      ensures Separate() && Step(View(), signal, marks) == Observes(setup, old(View()), e)
    {
      signal, marks := None, [];
      if Ignored(e) {
        return;
      }
      var state := if e.channel.Content? then content else if e.channel.Reasoning? then reasoning else toolArguments;
      var fired;
      fired, marks := state.ObserveEvent(setup, e);
      if fired.Some? {
        signal := Some(Signal(e.channel, e.kind, fired.value));
        RecordSignal(signal.value);
      }
    }

    /** One event; what is returned is what the history says was emitted. */
    method ObserveEvent(e: Event) returns (signal: Option<Signal>)
      requires Valid()
      modifies this, content, reasoning, toolArguments
      ensures Valid() && history == old(history) + [e]
      ensures emitted == old(emitted) + if signal.Some? then [signal.value] else []
    {
      ghost var run := Run(View(), emitted, done);
      ghost var marks;
      signal, marks := ObserveChannel(e);
      RunSnoc(setup, history, e, run, Step(View(), signal, marks));
      history := history + [e];
      emitted := emitted + if signal.Some? then [signal.value] else [];
      done := done + marks;
    }

    /** The first eight signals ever returned, how many there were, and how many were left out. */
    method Finish() returns (summary: seq<Signal>, count: U64, capped: U64)
      requires Valid()
      ensures summary == if |emitted| <= SUMMARY_LIMIT then emitted else emitted[..SUMMARY_LIMIT]
      ensures count == Clamp(|emitted|) && capped == if |emitted| <= SUMMARY_LIMIT then 0 else Clamp(|emitted| - SUMMARY_LIMIT)
    {
      SummaryIsPrefix(setup, history);
      summary, count, capped := signals, signalCount, cappedSignalCount;
    }

    method RepeatedLineFirstByteOffset(channel: Channel) returns (offset: Option<U64>)
      requires Valid()
      ensures offset == if channel.ToolFingerprint? then None else StateOf(RunOf(setup, history).detector, channel).lines.reported
    {
      match channel {
        case Content => offset := content.lastRepeatedLineFirstOffset;
        case Reasoning => offset := reasoning.lastRepeatedLineFirstOffset;
        case ToolArguments => offset := toolArguments.lastRepeatedLineFirstOffset;
        case ToolFingerprint => offset := None;
      }
    }
  }

  // ---------------------------------------------------------------- runs

  /** The detector after a run, every signal it emitted, and all that the semantic stage did. */
  datatype Run = Run(detector: Detector, log: seq<Signal>, marks: seq<Mark>)

  function Last(setup: Setup, r: Run, e: Event): Step {
    Observes(setup, r.detector, e)
  }

  function Extend(r: Run, step: Step): Run {
    Run(step.detector, r.log + (if step.signal.Some? then [step.signal.value] else []), r.marks + step.marks)
  }

  function RunOf(setup: Setup, events: seq<Event>): Run {
    if events == [] then Run(NewDetector, [], [])
    else
      var before := RunOf(setup, events[..|events| - 1]);
      Extend(before, Last(setup, before, events[|events| - 1]))
  }

  lemma RunSnoc(setup: Setup, before: seq<Event>, e: Event, run: Run, step: Step)
    requires run == RunOf(setup, before) && step == Observes(setup, run.detector, e)
    ensures RunOf(setup, before + [e]) == Extend(run, step)
  {
    assert (before + [e])[..|before|] == before;
  }

  /** The summary keeps the first eight signals and counts them all. */
  ghost predicate Summarizes(d: Detector, log: seq<Signal>) {
    && d.summary == (if |log| <= SUMMARY_LIMIT then log else log[..SUMMARY_LIMIT])
    && d.signalCount == Clamp(|log|)
    && d.cappedSignalCount == (if |log| <= SUMMARY_LIMIT then 0 else Clamp(|log| - SUMMARY_LIMIT))
  }

  lemma RecordSummarizes(d: Detector, log: seq<Signal>, signal: Signal)
    requires Summarizes(d, log)
    ensures Summarizes(Record(d, signal), log + [signal])
  {
  }

  lemma StepSummarizes(setup: Setup, r: Run, e: Event)
    requires Summarizes(r.detector, r.log)
    ensures Summarizes(Extend(r, Last(setup, r, e)).detector, Extend(r, Last(setup, r, e)).log)
  {
    assert r.log + [] == r.log;
    if !Ignored(e) {
      var o := Observe(setup, StateOf(r.detector, e.channel), e);
      if o.fired.Some? {
        RecordSummarizes(WithState(r.detector, e.channel, o.state), r.log, Signal(e.channel, e.kind, o.fired.value));
      }
    }
  }

  lemma {:induction false} SummaryIsPrefix(setup: Setup, events: seq<Event>)
    ensures Summarizes(RunOf(setup, events).detector, RunOf(setup, events).log)
  {
    if events != [] {
      SummaryIsPrefix(setup, events[..|events| - 1]);
      StepSummarizes(setup, RunOf(setup, events[..|events| - 1]), events[|events| - 1]);
    }
  }

  // ---------------------------------------------------------------- what each stage leaves alone

  lemma {:induction false} LineReason(setup: Setup, s: Lines, start: U64, text: string)
    ensures var r := ScanLines(setup, s, start, text); r.fired.Some? ==> r.fired.value.reason.RepeatedLine?
  {
    if text != [] { LineReason(setup, s, start, text[..|text| - 1]); }
  }

  lemma {:induction false} TokenReason(setup: Setup, s: Tokens, text: string)
    ensures var r := ScanTokens(setup, s, text); r.fired.Some? ==> r.fired.value.reason.RepeatedTokenWindow?
  {
    if text != [] { TokenReason(setup, s, text[..|text| - 1]); }
  }

  lemma {:induction false} SemanticReason(setup: Setup, s: Semantic, text: string)
    ensures var r := ScanSemantic(setup, s, text); r.fired.Some? ==> r.stopped && r.fired.value.reason.ApproximateRepetition?
  {
    if text != [] { SemanticReason(setup, s, text[..|text| - 1]); }
  }

  lemma LaterStages(setup: Setup, s: ChannelState, e: Event)
    ensures var r := AfterTokens(setup, s, e);
            && r.state.lines == s.lines && r.state.tokens == s.tokens && r.state.bytes == s.bytes
            && (r.fired.Some? ==> r.fired.value.reason !in {RepeatedLine, RepeatedTokenWindow})
  {
    var suffix := SuffixStage(setup, s, e);
    if suffix.fired.None? {
      SemanticReason(setup, suffix.state.semantic, e.fragment);
    }
  }

  /** Lines, tokens and the reason of one event, in terms of the first two stages. */
  lemma StagesOf(setup: Setup, s: ChannelState, e: Event)
    ensures var r, line := Observe(setup, s, e), LineStage(setup, Arrive(s, e), s.bytes, e);
            && r.state.lines == line.state.lines && r.state.bytes == SatAdd64(s.bytes, Bytes(e.fragment))
            && (line.fired.Some? <==> r.fired.Some? && r.fired.value.reason.RepeatedLine?)
            && (line.fired.Some? ==> r.fired == line.fired)
            && (line.fired.None? ==>
                  var token := TokenStage(setup, line.state, e);
                  && r.state.tokens == token.state.tokens
                  && (token.fired.Some? <==> r.fired.Some? && r.fired.value.reason.RepeatedTokenWindow?)
                  && (token.fired.Some? ==> r.fired == token.fired))
  {
    var line := LineStage(setup, Arrive(s, e), s.bytes, e);
    LineReason(setup, s.lines, s.bytes, e.fragment);
    if line.fired.None? {
      TokenReason(setup, line.state.tokens, e.fragment);
      var token := TokenStage(setup, line.state, e);
      if token.fired.None? {
        LaterStages(setup, token.state, e);
      }
    }
  }
}
