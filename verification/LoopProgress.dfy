/** What the counting fields and the character buffer of a channel hold after any history: fragments,
    flushes and earlier signals included. */
module LoopProgress {
  import opened Machine
  import opened Wrappers
  import opened Utf8
  import opened CappedCounts
  import opened LoopSetup
  import opened TokenScanner
  import opened SuffixCycles
  import opened SemanticWindows
  import opened LoopChannel
  import opened LoopDetector
  import opened LoopRuns

  // ---------------------------------------------------------------- windows

  lemma TokensAfterCounts(setup: Setup, s: Tokens, windows: seq<Hash>, e: Event)
    requires Counted(s, windows)
    ensures var done := TokensAfter(setup, s, e); Counted(done.tokens, windows + done.visited)
  {
    ScanCounts(setup, s, windows, e.fragment);
    var r := ScanTokens(setup, s, e.fragment);
    FinishCounts(setup, r.tokens, windows + r.visited);
    var more := Visits(FinishToken(setup, r.tokens));
    assert windows + r.visited + more == windows + (r.visited + more);
  }

  lemma EventCounts(setup: Setup, s: ChannelState, windows: seq<Hash>, e: Event)
    requires Counted(s.tokens, windows)
    ensures Counted(Observe(setup, s, e).state.tokens, windows + EventVisits(setup, s, e))
  {
    assert windows + [] == windows;
    TokensAfterCounts(setup, s.tokens, windows, e);
    TokensOfEvent(setup, s, e);
  }

  lemma TokensOfEvent(setup: Setup, s: ChannelState, e: Event)
    ensures Observe(setup, s, e).state.tokens ==
            if LineStage(setup, Arrive(s, e), s.bytes, e).fired.Some? then s.tokens else TokensAfter(setup, s.tokens, e).tokens
  {
    StagesOf(setup, s, e);
  }

  /** After every history the counting fields of a channel are those of the windows it visited; so the unique
      windows are always the counted ones, and as many were capped. */
  lemma {:induction false} RunIsCounted(setup: Setup, events: seq<Event>, channel: Channel)
    requires !channel.ToolFingerprint?
    ensures var s := StateOf(RunOf(setup, events).detector, channel).tokens;
            && Counted(s, VisitedOf(setup, events, channel))
            && s.uniques == Uniques(s.counter.counts.Keys, s.counter.capped)
  {
    TrackedAreCounted(VisitedOf(setup, events, channel), WINDOW_COUNT_CAP);
    if events != [] {
      var before, e := events[..|events| - 1], events[|events| - 1];
      RunIsCounted(setup, before, channel);
      var d, windows := RunOf(setup, before).detector, VisitedOf(setup, before, channel);
      assert windows + [] == windows;
      if e.channel != channel || Ignored(e) {
        OtherChannel(setup, d, e, channel);
      } else {
        SameChannel(setup, d, e);
        EventCounts(setup, StateOf(d, channel), windows, e);
      }
    }
  }

  // ---------------------------------------------------------------- bytes

  lemma ClampedSum(a: nat, b: nat)
    ensures SatAdd64(Clamp(a), b) == Clamp(a + b)
  {
  }

  lemma {:induction false} RunBytes(setup: Setup, events: seq<Event>, channel: Channel)
    requires !channel.ToolFingerprint?
    ensures StateOf(RunOf(setup, events).detector, channel).bytes == Clamp(Bytes(TextOf(events, channel)))
  {
    if events != [] {
      var before, e := events[..|events| - 1], events[|events| - 1];
      RunBytes(setup, before, channel);
      var d, text := RunOf(setup, before).detector, TextOf(before, channel);
      assert text + "" == text;
      if e.channel != channel || Ignored(e) {
        OtherChannel(setup, d, e, channel);
      } else {
        SameChannel(setup, d, e);
        StagesOf(setup, StateOf(d, channel), e);
        BytesConcat(text, e.fragment);
        ClampedSum(Bytes(text), Bytes(e.fragment));
      }
    }
  }

  // ---------------------------------------------------------------- low progress

  function MinBytes(setup: Setup, overlap: bool): U64 {
    if overlap then SatMul64(setup.config.lowProgressMinBytes, setup.config.overlapMultiplier)
    else setup.config.lowProgressMinBytes
  }

  /** A long text with few different windows: at most `WINDOW_COUNT_CAP` of them, and at most the
      configured share of all windows visited. */
  ghost predicate Stalled(setup: Setup, text: string, windows: seq<Hash>, overlap: bool) {
    && Bytes(text) >= MinBytes(setup, overlap)
    && windows != [] && |Distinct(windows)| <= WINDOW_COUNT_CAP
    && |Distinct(windows)| * 100 / |windows| <= setup.config.lowProgressRatioPercent
  }

  /** The detection that a stalled channel calls for. */
  ghost function StallOf(setup: Setup, text: string, windows: seq<Hash>, overlap: bool): Option<Detection> {
    if Stalled(setup, text, windows, overlap) then
      Some(Detection(LowProgressGrowth, Clamp(|windows|), MinBytes(setup, overlap), overlap))
    else None
  }

  lemma StalledExactly(setup: Setup, s: ChannelState, text: string, windows: seq<Hash>)
    requires s.bytes == Clamp(Bytes(text)) && Counted(s.tokens, windows)
    ensures LowProgress(setup, s) == StallOf(setup, text, windows, s.overlapSeen)
  {
    UncappedExactly(windows, WINDOW_COUNT_CAP);
    if windows != [] && s.tokens.uniques.capped == 0 {
      LowProgressRatioIsExact(s.tokens, windows);
    }
  }

  predicate IsLowProgress(fired: Option<Detection>) {
    fired.Some? && fired.value.reason.LowProgressGrowth?
  }

  lemma SemanticIsOther(setup: Setup, s: Semantic, e: Event)
    ensures !IsLowProgress(SemanticStage(setup, s, e).fired)
  {
    SemanticReason(setup, s, e.fragment);
  }

  lemma TailLowProgress(setup: Setup, s: ChannelState, e: Event)
    ensures var r := AfterTokens(setup, s, e);
            && (r.fired.None? ==> LowProgress(setup, r.state).None?)
            && (IsLowProgress(r.fired) ==> r.fired == LowProgress(setup, r.state))
  {
    var suffix := SuffixStage(setup, s, e);
    if suffix.fired.None? {
      SemanticIsOther(setup, suffix.state.semantic, e);
    }
  }

  /** The low-progress stage has the last word, on the state that the event leaves. */
  lemma EventLowProgress(setup: Setup, s: ChannelState, e: Event)
    ensures var r := Observe(setup, s, e);
            && (r.fired.None? ==> LowProgress(setup, r.state).None?)
            && (IsLowProgress(r.fired) ==> r.fired == LowProgress(setup, r.state))
  {
    StagesOf(setup, s, e);
    var line := LineStage(setup, Arrive(s, e), s.bytes, e);
    if line.fired.None? {
      var token := TokenStage(setup, line.state, e);
      if token.fired.None? {
        TailLowProgress(setup, token.state, e);
      }
    }
  }

  /** Events that a channel takes: all but empty fragments and fingerprints. */
  predicate Taken(e: Event) {
    !e.channel.ToolFingerprint? && (e.fragment != "" || !e.kind.Fragment?)
  }

  /** In every history, an event that gives no other signal gives a low-progress signal exactly when the
      channel has stalled, by its text and the windows visited so far. */
  lemma LowProgressExactly(setup: Setup, before: seq<Event>, e: Event)
    requires Taken(e)
    requires var signal := Emitted(setup, before + [e]); signal.None? || signal.value.detection.reason.LowProgressGrowth?
    ensures var events := before + [e];
            EmittedFor(setup, events, e.channel, LowProgressGrowth)
            == StallOf(setup, TextOf(events, e.channel), VisitedOf(setup, events, e.channel),
                       StateOf(RunOf(setup, events).detector, e.channel).overlapSeen)
  {
    var events := before + [e];
    assert events[..|events| - 1] == before;
    var d := RunOf(setup, before).detector;
    SameChannel(setup, d, e);
    RunIsCounted(setup, events, e.channel);
    RunBytes(setup, events, e.channel);
    EventLowProgress(setup, StateOf(d, e.channel), e);
    StalledExactly(setup, StateOf(RunOf(setup, events).detector, e.channel), TextOf(events, e.channel), VisitedOf(setup, events, e.channel));
  }

  // ---------------------------------------------------------------- the character buffer

  /** A detection of the line or the token stage, after which the suffix stage is skipped. */
  predicate IsEarly(fired: Option<Detection>) {
    fired.Some? && (fired.value.reason.RepeatedLine? || fired.value.reason.RepeatedTokenWindow?)
  }

  /** The last event gave its channel to the suffix stage. */
  predicate Searches(setup: Setup, events: seq<Event>, channel: Channel)
    requires events != []
  {
    var e, signal := events[|events| - 1], Emitted(setup, events);
    e.channel == channel && Taken(e) && !(signal.Some? && IsEarly(Some(signal.value.detection)))
  }

  /** The text of the events that reached the suffix stage: those without a line or token signal. */
  function SearchedText(setup: Setup, events: seq<Event>, channel: Channel): string {
    if events == [] then ""
    else
      SearchedText(setup, events[..|events| - 1], channel)
      + if Searches(setup, events, channel) then events[|events| - 1].fragment else ""
  }

  lemma {:induction false} LowerConcat(tables: TextTables, a: string, b: string)
    ensures LowerAll(tables, a + b) == LowerAll(tables, a) + LowerAll(tables, b)
    decreases |b|
  {
    if b == [] {
      assert a + b == a;
    } else {
      assert (a + b)[..|a + b| - 1] == a + b[..|b| - 1];
      LowerConcat(tables, a, b[..|b| - 1]);
    }
  }

  lemma LastOfConcat(n: nat, a: string, b: string)
    ensures LastN(n, LastN(n, a) + b) == LastN(n, a + b)
  {
  }

  lemma RecentOfEvent(setup: Setup, s: ChannelState, e: Event)
    ensures var r := Observe(setup, s, e);
            r.state.recent ==
            if IsEarly(r.fired) then s.recent
            else LastN(MAX_RECENT_CHARS, s.recent + LowerAll(setup.tables, e.fragment))
  {
    StagesOf(setup, s, e);
    var line := LineStage(setup, Arrive(s, e), s.bytes, e);
    if line.fired.None? {
      var token := TokenStage(setup, line.state, e);
      if token.fired.None? {
        LaterStages(setup, token.state, e);
      }
    }
  }

  ghost predicate Buffers(setup: Setup, recent: string, text: string) {
    recent == LastN(MAX_RECENT_CHARS, LowerAll(setup.tables, text))
  }

  lemma BufferGrows(setup: Setup, recent: string, text: string, more: string)
    requires Buffers(setup, recent, text)
    ensures Buffers(setup, LastN(MAX_RECENT_CHARS, recent + LowerAll(setup.tables, more)), text + more)
  {
    LowerConcat(setup.tables, text, more);
    LastOfConcat(MAX_RECENT_CHARS, LowerAll(setup.tables, text), LowerAll(setup.tables, more));
  }

  lemma RecentOfRun(setup: Setup, before: seq<Event>, e: Event, channel: Channel)
    requires !channel.ToolFingerprint?
    ensures var s, next := StateOf(RunOf(setup, before).detector, channel), StateOf(RunOf(setup, before + [e]).detector, channel);
            next.recent ==
            if Searches(setup, before + [e], channel) then LastN(MAX_RECENT_CHARS, s.recent + LowerAll(setup.tables, e.fragment))
            else s.recent
  {
    assert (before + [e])[..|before|] == before;
    var d := RunOf(setup, before).detector;
    if e.channel != channel || Ignored(e) {
      OtherChannel(setup, d, e, channel);
    } else {
      SameChannel(setup, d, e);
      RecentOfEvent(setup, StateOf(d, channel), e);
    }
  }

  /** After every history the buffer in which cycles are searched holds the last 4096 characters of the
      lower-cased text that reached it. */
  lemma {:induction false} BufferIsRecentText(setup: Setup, events: seq<Event>, channel: Channel)
    requires !channel.ToolFingerprint?
    ensures Buffers(setup, StateOf(RunOf(setup, events).detector, channel).recent, SearchedText(setup, events, channel))
  {
    if events != [] {
      var before, e := events[..|events| - 1], events[|events| - 1];
      assert events == before + [e];
      BufferIsRecentText(setup, before, channel);
      RecentOfRun(setup, before, e, channel);
      var text := SearchedText(setup, before, channel);
      assert text + "" == text;
      BufferGrows(setup, StateOf(RunOf(setup, before).detector, channel).recent, text, e.fragment);
    }
  }

  // ---------------------------------------------------------------- suffix cycles

  /** The detection that the shortest cycle at the end of the buffer calls for, if it reaches its threshold, which is
      higher if the cycle repeats in the request. */
  function CycleOf(setup: Setup, buffer: string): Option<Detection> {
    match FindCycle(buffer, setup.config.suffixThreshold)
    case None => None
    case Some(cycle) =>
      var known, repetitions := setup.tables.hashText(cycle.unit) in setup.profile.lines, Clamp(cycle.repetitions);
      var threshold := AdjustedThreshold(setup.config, setup.config.suffixThreshold, known);
      if repetitions < threshold then None else Some(Detection(LoopSetup.SuffixCycle, repetitions, threshold, known))
  }

  function OnlyCycle(fired: Option<Detection>): Option<Detection> {
    if fired.Some? && fired.value.reason == LoopSetup.SuffixCycle then fired else None
  }

  lemma SuffixOfStage(setup: Setup, s: ChannelState, e: Event)
    ensures var r := AfterTokens(setup, s, e); OnlyCycle(r.fired) == CycleOf(setup, r.state.recent)
  {
    var suffix := SuffixStage(setup, s, e);
    if suffix.fired.None? {
      SemanticReason(setup, suffix.state.semantic, e.fragment);
    }
  }

  lemma SuffixOfEvent(setup: Setup, s: ChannelState, e: Event)
    ensures var r := Observe(setup, s, e); OnlyCycle(r.fired) == if IsEarly(r.fired) then None else CycleOf(setup, r.state.recent)
  {
    StagesOf(setup, s, e);
    var line := LineStage(setup, Arrive(s, e), s.bytes, e);
    if line.fired.None? {
      var token := TokenStage(setup, line.state, e);
      if token.fired.None? {
        LaterStages(setup, token.state, e);
        SuffixOfStage(setup, token.state, e);
      }
    }
  }

  /** In every history, an event gives a suffix-cycle signal exactly when no line and no window repeats and the
      last 4096 characters of the text searched end in a cycle that reaches its threshold. */
  lemma CycleExactly(setup: Setup, before: seq<Event>, e: Event)
    requires Taken(e)
    ensures var events := before + [e];
            EmittedFor(setup, events, e.channel, LoopSetup.SuffixCycle)
            == if Searches(setup, events, e.channel) then
              CycleOf(setup, LastN(MAX_RECENT_CHARS, LowerAll(setup.tables, SearchedText(setup, events, e.channel))))
            else None
  {
    var events := before + [e];
    assert events[..|events| - 1] == before;
    var d := RunOf(setup, before).detector;
    SameChannel(setup, d, e);
    SuffixOfEvent(setup, StateOf(d, e.channel), e);
    BufferIsRecentText(setup, events, e.channel);
  }
}
