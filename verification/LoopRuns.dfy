/** Whole runs of the loop detector: how the text of a channel is cut into fragments, and what
    other channels do in between, does not matter to the line and token stages. */
module LoopRuns {
  import opened Machine
  import opened Wrappers
  import opened Utf8
  import opened CappedCounts
  import opened LoopSetup
  import opened LineScanner
  import opened LineReports
  import opened TokenScanner
  import opened LoopChannel
  import opened LoopDetector

  /** The text a channel has received. */
  function TextOf(events: seq<Event>, channel: Channel): string {
    if events == [] then ""
    else
      var text, e := TextOf(events[..|events| - 1], channel), events[|events| - 1];
      if e.channel == channel then text + e.fragment else text
  }

  /** The windows that the token stage visits in one event; none if the line stage fires first. */
  function EventVisits(setup: Setup, s: ChannelState, e: Event): seq<Hash> {
    if LineStage(setup, Arrive(s, e), s.bytes, e).fired.Some? then [] else TokensAfter(setup, s.tokens, e).visited
  }

  /** All windows that the token stage of a channel has visited. */
  function VisitedOf(setup: Setup, events: seq<Event>, channel: Channel): seq<Hash>
    requires !channel.ToolFingerprint?
  {
    if events == [] then []
    else
      var before, e := events[..|events| - 1], events[|events| - 1];
      VisitedOf(setup, before, channel)
      + if e.channel != channel || Ignored(e) then [] else EventVisits(setup, StateOf(RunOf(setup, before).detector, channel), e)
  }

  ghost predicate FragmentsOnly(events: seq<Event>, channel: Channel) {
    forall i :: 0 <= i < |events| && events[i].channel == channel ==> events[i].kind.Fragment?
  }

  /** The signal the last event of a run emitted. */
  function Emitted(setup: Setup, events: seq<Event>): Option<Signal>
    requires events != []
  {
    Last(setup, RunOf(setup, events[..|events| - 1]), events[|events| - 1]).signal
  }

  function EmittedFor(setup: Setup, events: seq<Event>, channel: Channel, reason: Reason): Option<Detection>
    requires events != []
  {
    var signal := Emitted(setup, events);
    if signal.Some? && signal.value.channel == channel && signal.value.detection.reason == reason then
      Some(signal.value.detection)
    else None
  }

  /** The line fields of a channel at its first repeated-line signal, or at the end of the run. */
  datatype LineStop = LineStop(lines: Lines, fired: Option<Detection>)

  function FirstLineStop(setup: Setup, events: seq<Event>, channel: Channel): LineStop
    requires !channel.ToolFingerprint?
  {
    if events == [] then LineStop(NoLines, None)
    else
      var before := FirstLineStop(setup, events[..|events| - 1], channel);
      if before.fired.Some? then before
      else LineStop(StateOf(RunOf(setup, events).detector, channel).lines, EmittedFor(setup, events, channel, RepeatedLine))
  }

  datatype TokenStop = TokenStop(tokens: Tokens, fired: Option<Detection>)

  function FirstTokenStop(setup: Setup, events: seq<Event>, channel: Channel): TokenStop
    requires !channel.ToolFingerprint?
  {
    if events == [] then TokenStop(NoTokens, None)
    else
      var before := FirstTokenStop(setup, events[..|events| - 1], channel);
      if before.fired.Some? then before
      else TokenStop(StateOf(RunOf(setup, events).detector, channel).tokens, EmittedFor(setup, events, channel, RepeatedTokenWindow))
  }

  // ---------------------------------------------------------------- one event

  /** The detector state of a channel matches the scans of its text, neither of which has fired. */
  ghost predicate Matches(setup: Setup, s: ChannelState, text: string) {
    var l := ScanLines(setup, NoLines, 0, text);
    l.fired.None? && s.lines == l.lines && s.bytes == l.position
  }

  ghost predicate MatchesTokens(setup: Setup, s: ChannelState, text: string) {
    var t := ScanTokens(setup, NoTokens, text);
    t.fired.None? && s.tokens == t.tokens
  }

  lemma ScanEnd(setup: Setup, text: string)
    ensures var l := ScanLines(setup, NoLines, 0, text); l.fired.None? ==> l.position == Clamp(Bytes(text))
  {
    ScanPosition(setup, NoLines, 0, text);
    assert text[..|text|] == text;
  }

  /** One more fragment continues the line scan of the channel's text. */
  lemma FragmentLines(setup: Setup, s: ChannelState, text: string, e: Event)
    requires Matches(setup, s, text) && e.kind.Fragment?
    ensures var r, l := Observe(setup, s, e), ScanLines(setup, NoLines, 0, text + e.fragment);
            && r.state.lines == l.lines
            && (l.fired.None? ==> r.state.bytes == l.position)
            && (l.fired.Some? <==> r.fired.Some? && r.fired.value.reason.RepeatedLine?)
            && (l.fired.Some? ==> r.fired == l.fired)
  {
    ScanConcat(setup, NoLines, 0, text, e.fragment);
    StagesOf(setup, s, e);
    ScanEnd(setup, text);
    ScanEnd(setup, text + e.fragment);
    BytesConcat(text, e.fragment);
  }

  /** And, if no line repeats, the token scan. */
  lemma FragmentTokens(setup: Setup, s: ChannelState, text: string, e: Event)
    requires Matches(setup, s, text) && MatchesTokens(setup, s, text) && e.kind.Fragment?
    requires ScanLines(setup, NoLines, 0, text + e.fragment).fired.None?
    ensures var r, t := Observe(setup, s, e), ScanTokens(setup, NoTokens, text + e.fragment);
            && r.state.tokens == t.tokens
            && (t.fired.Some? <==> r.fired.Some? && r.fired.value.reason.RepeatedTokenWindow?)
            && (t.fired.Some? ==> r.fired == t.fired)
  {
    ScanConcat(setup, NoLines, 0, text, e.fragment);
    ScanTokensConcat(setup, NoTokens, text, e.fragment);
    StagesOf(setup, s, e);
  }

  /** An event leaves the other channels alone, and says nothing about them. */
  lemma OtherChannel(setup: Setup, d: Detector, e: Event, channel: Channel)
    requires !channel.ToolFingerprint? && (e.channel != channel || Ignored(e))
    ensures var step := Observes(setup, d, e);
            && StateOf(step.detector, channel) == StateOf(d, channel)
            && (step.signal.Some? ==> step.signal.value.channel != channel)
  {
  }

  lemma SameChannel(setup: Setup, d: Detector, e: Event)
    requires !Ignored(e)
    ensures var step, r := Observes(setup, d, e), Observe(setup, StateOf(d, e.channel), e);
            && StateOf(step.detector, e.channel) == r.state
            && step.signal == (if r.fired.Some? then Some(Signal(e.channel, e.kind, r.fired.value)) else None)
  {
  }

  // ---------------------------------------------------------------- whole runs

  /** The first repeated-line signal, and the line fields there, are those of a scan of the text. */
  ghost predicate LinesFollow(setup: Setup, events: seq<Event>, channel: Channel)
    requires !channel.ToolFingerprint?
  {
    var l, text := ScanLines(setup, NoLines, 0, TextOf(events, channel)), TextOf(events, channel);
    && FirstLineStop(setup, events, channel) == LineStop(l.lines, l.fired)
    && (l.fired.None? ==> Matches(setup, StateOf(RunOf(setup, events).detector, channel), text))
  }

  lemma FiredStays(setup: Setup, text: string, more: string)
    requires ScanLines(setup, NoLines, 0, text).fired.Some?
    ensures ScanLines(setup, NoLines, 0, text + more) == ScanLines(setup, NoLines, 0, text)
  {
    ScanConcat(setup, NoLines, 0, text, more);
  }

  lemma LineEvent(setup: Setup, before: seq<Event>, e: Event, channel: Channel)
    requires !channel.ToolFingerprint? && LinesFollow(setup, before, channel)
    requires e.channel == channel ==> e.kind.Fragment?
    ensures LinesFollow(setup, before + [e], channel)
  {
    var events, text := before + [e], TextOf(before, channel);
    assert events[..|events| - 1] == before;
    var d := RunOf(setup, before).detector;
    assert text + "" == text;
    if FirstLineStop(setup, before, channel).fired.Some? {
      FiredStays(setup, text, e.fragment);
    } else if e.channel != channel || Ignored(e) {
      OtherChannel(setup, d, e, channel);
    } else {
      SameChannel(setup, d, e);
      FragmentLines(setup, StateOf(d, channel), text, e);
    }
  }

  lemma {:induction false} RunFollowsLines(setup: Setup, events: seq<Event>, channel: Channel)
    requires !channel.ToolFingerprint? && FragmentsOnly(events, channel)
    ensures LinesFollow(setup, events, channel)
  {
    if events != [] {
      var before, e := events[..|events| - 1], events[|events| - 1];
      assert before + [e] == events;
      RunFollowsLines(setup, before, channel);
      LineEvent(setup, before, e, channel);
    }
  }

  ghost predicate TokensFollow(setup: Setup, events: seq<Event>, channel: Channel)
    requires !channel.ToolFingerprint?
  {
    var t, text := ScanTokens(setup, NoTokens, TextOf(events, channel)), TextOf(events, channel);
    && FirstTokenStop(setup, events, channel) == TokenStop(t.tokens, t.fired)
    && (t.fired.None? ==> MatchesTokens(setup, StateOf(RunOf(setup, events).detector, channel), text))
  }

  lemma TokenEvent(setup: Setup, before: seq<Event>, e: Event, channel: Channel)
    requires !channel.ToolFingerprint? && TokensFollow(setup, before, channel) && LinesFollow(setup, before, channel)
    requires e.channel == channel ==> e.kind.Fragment?
    requires ScanLines(setup, NoLines, 0, TextOf(before, channel)).fired.None?
    requires ScanLines(setup, NoLines, 0, TextOf(before + [e], channel)).fired.None?
    ensures TokensFollow(setup, before + [e], channel)
  {
    var events, text := before + [e], TextOf(before, channel);
    assert events[..|events| - 1] == before;
    var d := RunOf(setup, before).detector;
    assert text + "" == text;
    if FirstTokenStop(setup, before, channel).fired.Some? {
      ScanTokensConcat(setup, NoTokens, text, e.fragment);
    } else if e.channel != channel || Ignored(e) {
      OtherChannel(setup, d, e, channel);
    } else {
      SameChannel(setup, d, e);
      FragmentTokens(setup, StateOf(d, channel), text, e);
    }
  }

  lemma {:induction false} RunFollowsTokens(setup: Setup, events: seq<Event>, channel: Channel)
    requires !channel.ToolFingerprint? && FragmentsOnly(events, channel)
    requires ScanLines(setup, NoLines, 0, TextOf(events, channel)).fired.None?
    ensures TokensFollow(setup, events, channel)
  {
    if events != [] {
      var before, e := events[..|events| - 1], events[|events| - 1];
      assert before + [e] == events;
      if ScanLines(setup, NoLines, 0, TextOf(before, channel)).fired.Some? {
        FiredStays(setup, TextOf(before, channel), e.fragment);
      }
      RunFollowsTokens(setup, before, channel);
      RunFollowsLines(setup, before, channel);
      TokenEvent(setup, before, e, channel);
    }
  }

  // ---------------------------------------------------------------- main results

  /** However the text of a channel is cut into fragments, and whatever other channels receive in
      between, the first repeated-line signal and the line fields there are the same; and if no line
      repeats, so are the first repeated-window signal and the token fields there. */
  lemma FragmentationIndependence(setup: Setup, one: seq<Event>, other: seq<Event>, channel: Channel)
    requires !channel.ToolFingerprint? && FragmentsOnly(one, channel) && FragmentsOnly(other, channel)
    requires TextOf(one, channel) == TextOf(other, channel)
    ensures FirstLineStop(setup, one, channel) == FirstLineStop(setup, other, channel)
    ensures FirstLineStop(setup, one, channel).fired.None? ==>
              FirstTokenStop(setup, one, channel) == FirstTokenStop(setup, other, channel)
  {
    RunFollowsLines(setup, one, channel);
    RunFollowsLines(setup, other, channel);
    if FirstLineStop(setup, one, channel).fired.None? {
      RunFollowsTokens(setup, one, channel);
      RunFollowsTokens(setup, other, channel);
    }
  }

  /** The offset reported with the first repeated-line signal of a run is the start of the first
      line with its hash in the channel's text; no signal means that no line repeats. */
  lemma ReportedOffset(setup: Setup, events: seq<Event>, channel: Channel)
    requires !channel.ToolFingerprint? && FragmentsOnly(events, channel)
    ensures var stop := FirstLineStop(setup, events, channel);
            Reports(setup, TextOf(events, channel), stop.fired, stop.lines.reported)
  {
    var text := TextOf(events, channel);
    RunFollowsLines(setup, events, channel);
    FirstRepeatedLine(setup, text);
    ScanReports(setup, text, ScanLines(setup, NoLines, 0, text));
  }

  /** While no line and no window repeats, the windows visited are those of the scan of the text. */
  lemma {:induction false} RunVisits(setup: Setup, events: seq<Event>, channel: Channel)
    requires !channel.ToolFingerprint? && FragmentsOnly(events, channel)
    requires ScanLines(setup, NoLines, 0, TextOf(events, channel)).fired.None?
    requires ScanTokens(setup, NoTokens, TextOf(events, channel)).fired.None?
    ensures VisitedOf(setup, events, channel) == ScanTokens(setup, NoTokens, TextOf(events, channel)).visited
  {
    if events != [] {
      var before, e := events[..|events| - 1], events[|events| - 1];
      var text := TextOf(before, channel);
      assert text + "" == text;
      if e.channel == channel {
        ScanConcat(setup, NoLines, 0, text, e.fragment);
        ScanTokensConcat(setup, NoTokens, text, e.fragment);
      }
      RunVisits(setup, before, channel);
      if e.channel == channel && !Ignored(e) {
        RunFollowsLines(setup, before, channel);
        RunFollowsTokens(setup, before, channel);
        FragmentVisits(setup, StateOf(RunOf(setup, before).detector, channel), text, e);
      }
    }
  }

  lemma FragmentVisits(setup: Setup, s: ChannelState, text: string, e: Event)
    requires Matches(setup, s, text) && MatchesTokens(setup, s, text) && e.kind.Fragment?
    requires ScanLines(setup, NoLines, 0, text + e.fragment).fired.None?
    ensures ScanTokens(setup, NoTokens, text + e.fragment).visited
         == ScanTokens(setup, NoTokens, text).visited + EventVisits(setup, s, e)
  {
    FragmentLines(setup, s, text, e);
    StagesOf(setup, s, e);
    ScanTokensConcat(setup, NoTokens, text, e.fragment);
  }

  /** A boundary after fragments visits what is left of the batch scan. */
  lemma BoundaryVisits(setup: Setup, s: ChannelState, text: string, e: Event)
    requires ValidSetup(setup) && MatchesTokens(setup, s, text) && e.kind.Boundary?
    requires LineStage(setup, Arrive(s, e), s.bytes, e).fired.None?
    requires ScanTokens(setup, NoTokens, text + e.fragment).fired.None?
    ensures var windows := TextWindows(setup.tables, setup.config.windowSize, text + e.fragment);
            && ScanTokens(setup, NoTokens, text).visited + EventVisits(setup, s, e) == windows
            && Counted(TokensAfter(setup, s.tokens, e).tokens, windows)
  {
    var r, more := ScanTokens(setup, NoTokens, text), ScanTokens(setup, s.tokens, e.fragment);
    VisitsJoin(r.visited, more.visited, Visits(FinishToken(setup, more.tokens)));
    ScanTokensConcat(setup, NoTokens, text, e.fragment);
    StreamingIsBatch(setup, text + e.fragment);
  }

  lemma VisitsJoin(a: seq<Hash>, b: seq<Hash>, c: seq<Hash>)
    ensures a + (b + c) == a + b + c
  {
  }

  lemma SilentBoundary(setup: Setup, s: ChannelState, text: string, e: Event)
    requires MatchesTokens(setup, s, text)
    requires var r := Observe(setup, s, e);
             && !(r.fired.Some? && r.fired.value.reason.RepeatedLine?)
             && (e.fragment == "" || !(r.fired.Some? && r.fired.value.reason.RepeatedTokenWindow?))
    ensures LineStage(setup, Arrive(s, e), s.bytes, e).fired.None?
    ensures ScanTokens(setup, NoTokens, text + e.fragment).fired.None?
  {
    StagesOf(setup, s, e);
    ScanTokensConcat(setup, NoTokens, text, e.fragment);
  }

  /** Fragments followed by a boundary, which may bring text of its own, visit exactly the windows that the
      batch scan visits on the whole text, in its order, and leave exactly their counts. */
  lemma BoundaryIsBatch(setup: Setup, events: seq<Event>, channel: Channel, last: string)
    requires ValidSetup(setup) && !channel.ToolFingerprint? && FragmentsOnly(events, channel)
    requires FirstLineStop(setup, events, channel).fired.None? && FirstTokenStop(setup, events, channel).fired.None?
    requires var run := events + [Event(channel, Boundary, last)];
             && EmittedFor(setup, run, channel, RepeatedLine).None?
             && (last == "" || EmittedFor(setup, run, channel, RepeatedTokenWindow).None?)
    ensures var run := events + [Event(channel, Boundary, last)];
            var windows := TextWindows(setup.tables, setup.config.windowSize, TextOf(events, channel) + last);
            && VisitedOf(setup, run, channel) == windows
            && Counted(StateOf(RunOf(setup, run).detector, channel).tokens, windows)
  {
    RunFollowsLines(setup, events, channel);
    RunFollowsTokens(setup, events, channel);
    RunVisits(setup, events, channel);
    var s := StateOf(RunOf(setup, events).detector, channel);
    BoundaryEvent(setup, events, channel, last, s);
    BoundaryVisited(setup, s, TextOf(events, channel), Event(channel, Boundary, last));
  }

  /** The visits of a boundary that ends a run, and what it being silent says of its stages. */
  lemma BoundaryEvent(setup: Setup, events: seq<Event>, channel: Channel, last: string, s: ChannelState)
    requires !channel.ToolFingerprint? && s == StateOf(RunOf(setup, events).detector, channel)
    requires var run := events + [Event(channel, Boundary, last)];
             && EmittedFor(setup, run, channel, RepeatedLine).None?
             && (last == "" || EmittedFor(setup, run, channel, RepeatedTokenWindow).None?)
    ensures var run, r := events + [Event(channel, Boundary, last)], Observe(setup, s, Event(channel, Boundary, last));
            && VisitedOf(setup, run, channel) == VisitedOf(setup, events, channel) + EventVisits(setup, s, Event(channel, Boundary, last))
            && StateOf(RunOf(setup, run).detector, channel) == r.state
            && !(r.fired.Some? && r.fired.value.reason.RepeatedLine?)
            && (last == "" || !(r.fired.Some? && r.fired.value.reason.RepeatedTokenWindow?))
  {
    var e := Event(channel, Boundary, last);
    VisitsSnoc(setup, events, e, s);
    EventOutcome(setup, events, e, Observe(setup, s, e), RepeatedLine);
    EventOutcome(setup, events, e, Observe(setup, s, e), RepeatedTokenWindow);
  }

  lemma VisitsSnoc(setup: Setup, events: seq<Event>, e: Event, s: ChannelState)
    requires !Ignored(e) && s == StateOf(RunOf(setup, events).detector, e.channel)
    ensures VisitedOf(setup, events + [e], e.channel) == VisitedOf(setup, events, e.channel) + EventVisits(setup, s, e)
  {
    assert (events + [e])[..|events|] == events;
  }

  lemma EmittedOf(setup: Setup, events: seq<Event>, e: Event, r: Observed)
    requires !Ignored(e) && r == Observe(setup, StateOf(RunOf(setup, events).detector, e.channel), e)
    ensures StateOf(RunOf(setup, events + [e]).detector, e.channel) == r.state
    ensures Emitted(setup, events + [e]) == if r.fired.Some? then Some(Signal(e.channel, e.kind, r.fired.value)) else None
  {
    var run := events + [e];
    assert run[..|run| - 1] == events;
    SameChannel(setup, RunOf(setup, events).detector, e);
  }

  /** What one more event makes of its channel and emits. */
  lemma EventOutcome(setup: Setup, events: seq<Event>, e: Event, r: Observed, reason: Reason)
    requires !Ignored(e) && r == Observe(setup, StateOf(RunOf(setup, events).detector, e.channel), e)
    ensures StateOf(RunOf(setup, events + [e]).detector, e.channel) == r.state
    ensures EmittedFor(setup, events + [e], e.channel, reason)
         == if r.fired.Some? && r.fired.value.reason == reason then r.fired else None
  {
    EmittedOf(setup, events, e, r);
  }

  lemma BoundaryVisited(setup: Setup, s: ChannelState, text: string, e: Event)
    requires ValidSetup(setup) && MatchesTokens(setup, s, text) && e.kind.Boundary?
    requires var r := Observe(setup, s, e);
             && !(r.fired.Some? && r.fired.value.reason.RepeatedLine?)
             && (e.fragment == "" || !(r.fired.Some? && r.fired.value.reason.RepeatedTokenWindow?))
    ensures var windows := TextWindows(setup.tables, setup.config.windowSize, text + e.fragment);
            && ScanTokens(setup, NoTokens, text).visited + EventVisits(setup, s, e) == windows
            && Counted(Observe(setup, s, e).state.tokens, windows)
  {
    SilentBoundary(setup, s, text, e);
    BoundaryVisits(setup, s, text, e);
    StagesOf(setup, s, e);
  }
}
