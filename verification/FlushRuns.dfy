/** Events that are no fragments: a boundary, a check or a tick ends the line and the token that are pending, as the
    character that would have ended them does. */
module FlushRuns {
  import opened Wrappers
  import opened Machine
  import opened LoopSetup
  import opened LineScanner
  import opened TokenScanner
  import opened LoopChannel
  import opened LoopDetector
  import opened LoopRuns

  /** The line fields `flushed` after a flushing event, next to those after its text alone (`plain`) and after its text
      and a newline (`closed`): a line left pending is counted like a completed one, but where the next line starts is
      not moved; if none is pending, nothing is counted. */
  predicate LineFlushed(flushed: Lines, plain: Lines, closed: Lines) {
    flushed == if plain.pending == "" then plain else closed.(pendingStart := plain.pendingStart)
  }

  lemma FlushLines(setup: Setup, s: Lines, start: U64, e: Event)
    requires e.kind in {Boundary, Check, Tick}
    ensures var flushed, plain := LinesAfter(setup, s, start, e), ScanLines(setup, s, start, e.fragment);
            var closed := ScanLines(setup, s, start, e.fragment + ['\n']);
            && LineFlushed(flushed.lines, plain.lines, closed.lines)
            && flushed.fired == if plain.lines.pending == "" then plain.fired else closed.fired
  {
    var text := e.fragment + ['\n'];
    assert text[..|text| - 1] == e.fragment;
    FiredIsClosed(setup, s, start, e.fragment);
  }

  lemma {:induction false} FiredIsClosed(setup: Setup, s: Lines, start: U64, text: string)
    ensures var r := ScanLines(setup, s, start, text); r.fired.Some? ==> r.lines.pending == ""
  {
    if text != [] { FiredIsClosed(setup, s, start, text[..|text| - 1]); }
  }

  lemma FlushTokens(setup: Setup, s: Tokens, e: Event, c: char)
    requires e.kind in {Boundary, Check, Tick} && !setup.tables.alphanumeric(c)
    ensures var flushed, ended := TokensAfter(setup, s, e), ScanTokens(setup, s, e.fragment + [c]);
            flushed.tokens == ended.tokens && flushed.fired == ended.fired
  {
    var text := e.fragment + [c];
    assert text[..|text| - 1] == e.fragment;
  }

  /** What an event on a channel leaves of its lines, and the repeated-line signal it sends. */
  function LinesThen(setup: Setup, events: seq<Event>, e: Event): (Lines, Option<Detection>)
    requires !e.channel.ToolFingerprint?
  {
    (StateOf(RunOf(setup, events + [e]).detector, e.channel).lines, EmittedFor(setup, events + [e], e.channel, RepeatedLine))
  }

  /** The same for its tokens. */
  function TokensThen(setup: Setup, events: seq<Event>, e: Event): (Tokens, Option<Detection>)
    requires !e.channel.ToolFingerprint?
  {
    (StateOf(RunOf(setup, events + [e]).detector, e.channel).tokens, EmittedFor(setup, events + [e], e.channel, RepeatedTokenWindow))
  }

  /** The line stage of the last event of a run, in terms of the scan. */
  lemma LinesOfEvent(setup: Setup, events: seq<Event>, e: Event)
    requires !e.channel.ToolFingerprint?
    ensures var s := StateOf(RunOf(setup, events).detector, e.channel);
            var done := LinesAfter(setup, s.lines, s.bytes, e);
            LinesThen(setup, events, e) == (done.lines, done.fired)
  {
    var run, d := events + [e], RunOf(setup, events).detector;
    assert run[..|run| - 1] == events;
    if Ignored(e) {
      OtherChannel(setup, d, e, e.channel);
    } else {
      SameChannel(setup, d, e);
      StagesOf(setup, StateOf(d, e.channel), e);
    }
  }

  function WindowRepeat(fired: Option<Detection>): Option<Detection> {
    if fired.Some? && fired.value.reason.RepeatedTokenWindow? then fired else None
  }

  lemma TokensObserved(setup: Setup, s: ChannelState, e: Event, done: TokensDone)
    requires LinesAfter(setup, s.lines, s.bytes, e).fired.None? && done == TokensAfter(setup, s.tokens, e)
    ensures var r := Observe(setup, s, e); r.state.tokens == done.tokens && WindowRepeat(r.fired) == done.fired
  {
    StagesOf(setup, s, e);
  }

  /** And its token stage, if no line repeats. */
  lemma TokensOfEvent(setup: Setup, events: seq<Event>, e: Event, s: ChannelState, done: TokensDone)
    requires !Ignored(e) && s == StateOf(RunOf(setup, events).detector, e.channel)
    requires LinesAfter(setup, s.lines, s.bytes, e).fired.None? && done == TokensAfter(setup, s.tokens, e)
    ensures TokensThen(setup, events, e) == (done.tokens, done.fired)
  {
    TokensObserved(setup, s, e, done);
    EventOutcome(setup, events, e, Observe(setup, s, e), RepeatedTokenWindow);
  }

  /** After any history, a flushing event counts the pending line as a completed one: it leaves the counts, offsets and
      signal that the same text followed by a newline would. */
  lemma FlushCountsPendingLine(setup: Setup, events: seq<Event>, channel: Channel, kind: EventKind, text: string)
    requires !channel.ToolFingerprint? && kind in {Boundary, Check, Tick}
    ensures var flushed, plain := LinesThen(setup, events, Event(channel, kind, text)), LinesThen(setup, events, Event(channel, Fragment, text));
            var closed := LinesThen(setup, events, Event(channel, Fragment, text + ['\n']));
            && LineFlushed(flushed.0, plain.0, closed.0)
            && flushed.1 == if plain.0.pending == "" then plain.1 else closed.1
  {
    var s := StateOf(RunOf(setup, events).detector, channel);
    LinesOfEvent(setup, events, Event(channel, kind, text));
    LinesOfEvent(setup, events, Event(channel, Fragment, text));
    LinesOfEvent(setup, events, Event(channel, Fragment, text + ['\n']));
    FlushLines(setup, s.lines, s.bytes, Event(channel, kind, text));
  }

  /** And it ends the pending token as any character outside tokens would, unless a line repeats first. */
  lemma FlushEndsToken(setup: Setup, events: seq<Event>, channel: Channel, kind: EventKind, text: string, c: char)
    requires !channel.ToolFingerprint? && kind in {Boundary, Check, Tick} && !setup.tables.alphanumeric(c)
    requires LinesThen(setup, events, Event(channel, kind, text)).1.None?
    requires LinesThen(setup, events, Event(channel, Fragment, text + [c])).1.None?
    ensures TokensThen(setup, events, Event(channel, kind, text)) == TokensThen(setup, events, Event(channel, Fragment, text + [c]))
  {
    var s := StateOf(RunOf(setup, events).detector, channel);
    var flush, ended := Event(channel, kind, text), Event(channel, Fragment, text + [c]);
    LinesOfEvent(setup, events, flush);
    LinesOfEvent(setup, events, ended);
    TokensOfEvent(setup, events, flush, s, TokensAfter(setup, s.tokens, flush));
    TokensOfEvent(setup, events, ended, s, TokensAfter(setup, s.tokens, ended));
    FlushTokens(setup, s.tokens, flush, c);
  }
}
