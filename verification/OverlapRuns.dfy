/** When a channel has seen something that the request itself repeats, which raises its low-progress threshold. */
module OverlapRuns {
  import opened Machine
  import opened Wrappers
  import opened CappedCounts
  import opened LoopSetup
  import opened LineScanner
  import opened TokenScanner
  import opened SuffixCycles
  import opened LoopChannel
  import opened LoopDetector
  import opened LoopRuns
  import opened LoopProgress

  /** A line that repeats in the request. */
  predicate KnownLine(setup: Setup, line: string) {
    setup.tables.lineHash(line).Some? && setup.tables.lineHash(line).value in setup.profile.lines
  }

  /** The newline at `k` is read, and ends such a line. */
  predicate EndsKnownLine(setup: Setup, s: Lines, start: U64, text: string, k: nat)
    requires k < |text|
  {
    var r := ScanLines(setup, s, start, text[..k]);
    text[k] == '\n' && r.fired.None? && KnownLine(setup, r.lines.pending)
  }

  ghost predicate EndsSomeKnownLine(setup: Setup, s: Lines, start: U64, text: string) {
    exists k: nat :: k < |text| && EndsKnownLine(setup, s, start, text, k)
  }

  lemma EndsEarlier(setup: Setup, s: Lines, start: U64, text: string)
    requires text != []
    ensures EndsSomeKnownLine(setup, s, start, text) <==>
            EndsSomeKnownLine(setup, s, start, text[..|text| - 1]) || EndsKnownLine(setup, s, start, text, |text| - 1)
  {
    var before := text[..|text| - 1];
    forall k: nat | k < |before| ensures EndsKnownLine(setup, s, start, before, k) <==> EndsKnownLine(setup, s, start, text, k) {
      assert before[..k] == text[..k];
    }
    if EndsSomeKnownLine(setup, s, start, before) {
      var k: nat :| k < |before| && EndsKnownLine(setup, s, start, before, k);
      assert EndsKnownLine(setup, s, start, text, k);
    }
  }

  lemma {:induction false} LinesOverlap(setup: Setup, s: Lines, start: U64, text: string)
    ensures ScanLines(setup, s, start, text).overlap <==> EndsSomeKnownLine(setup, s, start, text)
  {
    if text != [] {
      LinesOverlap(setup, s, start, text[..|text| - 1]);
      EndsEarlier(setup, s, start, text);
    }
  }

  /** One of these windows repeats in the request. */
  ghost predicate SomeKnown(setup: Setup, windows: seq<Hash>) {
    exists i :: 0 <= i < |windows| && windows[i] in setup.profile.windows
  }

  lemma KnownConcat(setup: Setup, a: seq<Hash>, b: seq<Hash>)
    ensures SomeKnown(setup, a + b) <==> SomeKnown(setup, a) || SomeKnown(setup, b)
  {
    if SomeKnown(setup, a) {
      var i :| 0 <= i < |a| && a[i] in setup.profile.windows;
      assert (a + b)[i] == a[i];
    }
    if SomeKnown(setup, b) {
      var i :| 0 <= i < |b| && b[i] in setup.profile.windows;
      assert (a + b)[|a| + i] == b[i];
    }
  }

  lemma FinishOverlap(setup: Setup, s: Tokens)
    ensures var done := FinishToken(setup, s); done.overlap <==> SomeKnown(setup, Visits(done))
  {
    var done := FinishToken(setup, s);
    if done.visited.Some? { assert Visits(done)[0] == done.visited.value; }
  }

  lemma {:induction false} TokensOverlap(setup: Setup, s: Tokens, text: string)
    ensures var r := ScanTokens(setup, s, text); r.overlap <==> SomeKnown(setup, r.visited)
  {
    if text != [] {
      TokensOverlap(setup, s, text[..|text| - 1]);
      var r := ScanTokens(setup, s, text[..|text| - 1]);
      FinishOverlap(setup, r.tokens);
      KnownConcat(setup, r.visited, Visits(FinishToken(setup, r.tokens)));
    }
  }

  /** An event ends a line that repeats in the request, with a newline or by flushing it. */
  ghost predicate EventEndsKnownLine(setup: Setup, s: ChannelState, e: Event) {
    var r := ScanLines(setup, s.lines, s.bytes, e.fragment);
    || EndsSomeKnownLine(setup, s.lines, s.bytes, e.fragment)
    || (e.kind in {Boundary, Check, Tick} && r.fired.None? && r.lines.pending != "" && KnownLine(setup, r.lines.pending))
  }

  /** The shortest cycle at the end of the buffer repeats in the request. */
  predicate KnownCycle(setup: Setup, buffer: string) {
    var found := FindCycle(buffer, setup.config.suffixThreshold);
    found.Some? && setup.tables.hashText(found.value.unit) in setup.profile.lines
  }

  lemma LineStageOverlap(setup: Setup, s: ChannelState, e: Event)
    ensures LinesAfter(setup, s.lines, s.bytes, e).overlap <==> EventEndsKnownLine(setup, s, e)
  {
    LinesOverlap(setup, s.lines, s.bytes, e.fragment);
  }

  lemma TokenStageOverlap(setup: Setup, s: Tokens, e: Event)
    ensures var done := TokensAfter(setup, s, e); done.overlap <==> SomeKnown(setup, done.visited)
  {
    TokensOverlap(setup, s, e.fragment);
    var r := ScanTokens(setup, s, e.fragment);
    FinishOverlap(setup, r.tokens);
    KnownConcat(setup, r.visited, Visits(FinishToken(setup, r.tokens)));
  }

  lemma LaterOverlap(setup: Setup, s: ChannelState, e: Event)
    ensures var r := AfterTokens(setup, s, e); r.state.overlapSeen <==> s.overlapSeen || KnownCycle(setup, r.state.recent)
  {
  }

  lemma EventOverlap(setup: Setup, s: ChannelState, e: Event)
    ensures var r := Observe(setup, s, e);
            r.state.overlapSeen <==>
            || s.overlapSeen || EventEndsKnownLine(setup, s, e) || SomeKnown(setup, EventVisits(setup, s, e))
            || (!IsEarly(r.fired) && KnownCycle(setup, r.state.recent))
  {
    StagesOf(setup, s, e);
    LineStageOverlap(setup, s, e);
    TokenStageOverlap(setup, s.tokens, e);
    var line := LineStage(setup, Arrive(s, e), s.bytes, e);
    if line.fired.None? {
      var token := TokenStage(setup, line.state, e);
      if token.fired.None? {
        LaterStages(setup, token.state, e);
        LaterOverlap(setup, token.state, e);
      }
    }
  }

  /** In every history, a channel has seen something the request repeats exactly if an event on it has ended such a
      line, visited such a window, or left such a cycle at the end of the buffer. */
  lemma OverlapExactly(setup: Setup, before: seq<Event>, e: Event)
    requires Taken(e)
    ensures var s, next := StateOf(RunOf(setup, before).detector, e.channel), StateOf(RunOf(setup, before + [e]).detector, e.channel);
            next.overlapSeen <==>
            || s.overlapSeen || EventEndsKnownLine(setup, s, e) || SomeKnown(setup, EventVisits(setup, s, e))
            || (Searches(setup, before + [e], e.channel) && KnownCycle(setup, next.recent))
  {
    var s := StateOf(RunOf(setup, before).detector, e.channel);
    EventOverlap(setup, s, e);
    SearchesIsLate(setup, before, e, Observe(setup, s, e));
  }

  lemma SearchesIsLate(setup: Setup, before: seq<Event>, e: Event, r: Observed)
    requires Taken(e) && r == Observe(setup, StateOf(RunOf(setup, before).detector, e.channel), e)
    ensures StateOf(RunOf(setup, before + [e]).detector, e.channel) == r.state
    ensures Searches(setup, before + [e], e.channel) == !IsEarly(r.fired)
  {
    EmittedOf(setup, before, e, r);
  }
}
