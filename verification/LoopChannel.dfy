/** One stream channel: five detection stages, tried in order on every event. */
module LoopChannel {
  import opened Machine
  import opened Wrappers
  import opened Utf8
  import opened CappedCounts
  import opened LoopSetup
  import opened LineScanner
  import opened TokenScanner
  import opened SuffixCycles
  import opened SemanticWindows

  datatype Channel = Reasoning | Content | ToolArguments | ToolFingerprint

  datatype EventKind = Fragment | Check | Tick | Boundary | CompletedJson | CompletedToolFingerprint

  datatype Event = Event(channel: Channel, kind: EventKind, fragment: string)

  /** Events that also end the pending line and token. */
  predicate Flushes(kind: EventKind) {
    kind.Boundary? || kind.Check? || kind.Tick?
  }

  /** What the configuration loader guarantees. */
  predicate ValidSetup(setup: Setup) {
    && setup.config.lineThreshold >= 1 && setup.config.windowSize >= 1 && setup.config.windowThreshold >= 1
    && setup.config.suffixThreshold >= 1
  }

  datatype ChannelState = ChannelState(
    fragments: U64,
    bytes: U64,
    lines: Lines,
    tokens: Tokens,
    recent: string,
    overlapSeen: bool,
    semantic: Semantic)

  const NewChannel := ChannelState(0, 0, NoLines, NoTokens, "", false, NoSemantic)

  // ---------------------------------------------------------------- the stages

  /** The state after a stage, and what it detected. */
  datatype Staged = Staged(state: ChannelState, fired: Option<Detection>)

  /** The line fields after an event, whether the text repeats in the request, and the detection. */
  function LinesAfter(setup: Setup, s: Lines, start: U64, e: Event): Finished {
    var r := ScanLines(setup, s, start, e.fragment);
    if r.fired.None? && Flushes(e.kind) && r.lines.pending != "" then
      var done := FinishLine(setup, r.lines);
      Finished(done.lines.(pending := ""), r.overlap || done.overlap, done.fired)
    else
      Finished(r.lines, r.overlap, r.fired)
  }

  function LineStage(setup: Setup, s: ChannelState, start: U64, e: Event): Staged {
    var done := LinesAfter(setup, s.lines, start, e);
    Staged(s.(lines := done.lines, overlapSeen := s.overlapSeen || done.overlap), done.fired)
  }

  /** The same for the token fields, and all windows visited. */
  datatype TokensDone = TokensDone(tokens: Tokens, visited: seq<Hash>, overlap: bool, fired: Option<Detection>)

  function TokensAfter(setup: Setup, s: Tokens, e: Event): TokensDone {
    var r := ScanTokens(setup, s, e.fragment);
    if r.fired.None? && Flushes(e.kind) then
      var done := FinishToken(setup, r.tokens);
      TokensDone(done.tokens, r.visited + Visits(done), r.overlap || done.overlap, done.fired)
    else
      TokensDone(r.tokens, r.visited, r.overlap, r.fired)
  }

  function TokenStage(setup: Setup, s: ChannelState, e: Event): Staged {
    var done := TokensAfter(setup, s.tokens, e);
    Staged(s.(tokens := done.tokens, overlapSeen := s.overlapSeen || done.overlap), done.fired)
  }

  function SuffixStage(setup: Setup, s: ChannelState, e: Event): Staged {
    var next := s.(recent := LastN(MAX_RECENT_CHARS, s.recent + LowerAll(setup.tables, e.fragment)));
    match FindCycle(next.recent, setup.config.suffixThreshold)
    case None => Staged(next, None)
    case Some(cycle) =>
      var overlap := setup.tables.hashText(cycle.unit) in setup.profile.lines;
      var threshold := AdjustedThreshold(setup.config, setup.config.suffixThreshold, overlap);
      Staged(next.(overlapSeen := next.overlapSeen || overlap),
             if Clamp(cycle.repetitions) >= threshold then
               Some(Detection(SuffixCycle, Clamp(cycle.repetitions), threshold, overlap))
             else None)
  }

  /** The semantic fields, what was done to them and the detection of one event. */
  function SemanticStage(setup: Setup, s: Semantic, e: Event): SemanticDone {
    if !e.channel.Reasoning? || !setup.config.semanticEnabled then SemanticDone(s, [], None)
    else
      var r := ScanSemantic(setup, s, e.fragment);
      if !r.stopped && Flushes(e.kind) then
        var done := FinishSemanticToken(setup, r.semantic);
        SemanticDone(done.semantic, r.marks + [Flush] + done.marks, done.fired)
      else
        SemanticDone(r.semantic, r.marks, r.fired)
  }

  function LowProgress(setup: Setup, s: ChannelState): Option<Detection> {
    var minBytes :=
      if s.overlapSeen then SatMul64(setup.config.lowProgressMinBytes, setup.config.overlapMultiplier)
      else setup.config.lowProgressMinBytes;
    if s.bytes < minBytes || s.tokens.total == 0 || s.tokens.uniques.capped > 0 then None
    else if UniqueRatioPercent(s.tokens) > setup.config.lowProgressRatioPercent then None
    else Some(Detection(LowProgressGrowth, s.tokens.total, minBytes, s.overlapSeen))
  }

  /** One event: the new state, what was detected, and what the semantic stage did. */
  datatype Observed = Observed(state: ChannelState, fired: Option<Detection>, marks: seq<Mark>)

  function Arrive(s: ChannelState, e: Event): ChannelState {
    s.(fragments := SatAdd64(s.fragments, 1), bytes := SatAdd64(s.bytes, Bytes(e.fragment)))
  }

  function AfterSuffix(setup: Setup, s: ChannelState, e: Event): Observed {
    var done := SemanticStage(setup, s.semantic, e);
    var next := s.(semantic := done.semantic);
    Observed(next, if done.fired.Some? then done.fired else LowProgress(setup, next), done.marks)
  }

  function AfterTokens(setup: Setup, s: ChannelState, e: Event): Observed {
    var suffix := SuffixStage(setup, s, e);
    if suffix.fired.Some? then Observed(suffix.state, suffix.fired, []) else AfterSuffix(setup, suffix.state, e)
  }

  function AfterLines(setup: Setup, s: ChannelState, e: Event): Observed {
    var token := TokenStage(setup, s, e);
    if token.fired.Some? then Observed(token.state, token.fired, []) else AfterTokens(setup, token.state, e)
  }

  function Observe(setup: Setup, s: ChannelState, e: Event): Observed {
    var line := LineStage(setup, Arrive(s, e), s.bytes, e);
    if line.fired.Some? then Observed(line.state, line.fired, []) else AfterLines(setup, line.state, e)
  }

  // ---------------------------------------------------------------- updating counters in place

  method IncrementCountWithCap(counts: map<Hash, U32>, capped: U64, hash: Hash, cap: nat)
    returns (counts': map<Hash, U32>, capped': U64, count: Option<U32>)
    ensures (Counter(counts', capped'), count) == Increment(Counter(counts, capped), hash, cap)
  {
    counts', capped' := counts, capped;
    if hash in counts {
      var n := SatAdd32(counts[hash], 1);
      counts' := counts[hash := n];
      return counts', capped', Some(n);
    }
    if |counts| >= cap {
      capped' := SatAdd64(capped, 1);
      return counts', capped', None;
    }
    counts' := counts[hash := 1];
    return counts', capped', Some(1);
  }

  /** A detection within a prefix is the detection of the whole text. */
  lemma FiredEarly(setup: Setup, s: Lines, start: U64, text: string, n: nat)
    requires n <= |text| && ScanLines(setup, s, start, text[..n]).fired.Some?
    ensures ScanLines(setup, s, start, text) == ScanLines(setup, s, start, text[..n])
  {
    assert text == text[..n] + text[n..];
    ScanConcat(setup, s, start, text[..n], text[n..]);
  }

  lemma LineStep(setup: Setup, s: Lines, start: U64, text: string, i: nat)
    requires i < |text| && ScanLines(setup, s, start, text[..i]).fired.None?
    ensures ScanLines(setup, s, start, text[..i + 1]) == ScanChar(setup, ScanLines(setup, s, start, text[..i]), text[i])
  {
    assert text[..i + 1][..i] == text[..i];
  }

  lemma TokenStep(setup: Setup, s: Tokens, text: string, i: nat)
    requires i < |text| && ScanTokens(setup, s, text[..i]).fired.None?
    ensures ScanTokens(setup, s, text[..i + 1]) == ScanTokenChar(setup, ScanTokens(setup, s, text[..i]), text[i])
  {
    assert text[..i + 1][..i] == text[..i];
  }

  lemma TokensFiredEarly(setup: Setup, s: Tokens, text: string, n: nat)
    requires n <= |text| && ScanTokens(setup, s, text[..n]).fired.Some?
    ensures ScanTokens(setup, s, text) == ScanTokens(setup, s, text[..n])
  {
    assert text == text[..n] + text[n..];
    ScanTokensConcat(setup, s, text[..n], text[n..]);
  }

  lemma {:induction false} SemanticStoppedEarly(setup: Setup, s: Semantic, text: string, n: nat)
    requires n <= |text| && ScanSemantic(setup, s, text[..n]).stopped
    ensures ScanSemantic(setup, s, text) == ScanSemantic(setup, s, text[..n])
    decreases |text|
  {
    if n < |text| {
      assert text[..|text| - 1][..n] == text[..n];
      SemanticStoppedEarly(setup, s, text[..|text| - 1], n);
    } else {
      assert text[..n] == text;
    }
  }

  class LoopChannelState {
    var fragmentCount: U64
    var bytesSeen: U64
    var pendingLine: string
    var pendingLineStart: U64
    var lineCounts: map<Hash, U32>
    var lineFirstOffsets: map<Hash, U64>
    var lineCountCapped: U64
    var lastRepeatedLineFirstOffset: Option<U64>
    var currentToken: string
    var recentTokenHashes: seq<Hash>
    var tokenWindowCounts: map<Hash, U32>
    var tokenWindowCountCapped: U64
    var uniqueTokenWindows: set<Hash>
    var uniqueTokenWindowCapped: U64
    var tokenWindowTotal: U64
    var recentChars: string
    var inputOverlapSeen: bool
    var semanticCurrentToken: string
    var semanticWindowTokens: seq<Hash>
    var semanticWindows: seq<Window>
    var semanticHistoryCapped: U64
    var semanticRepeatCount: U32

    ghost function LineFields(): Lines
      reads this
    {
      Lines(pendingLine, pendingLineStart, Counter(lineCounts, lineCountCapped), lineFirstOffsets, lastRepeatedLineFirstOffset)
    }

    ghost function TokenFields(): Tokens
      reads this
    {
      Tokens(currentToken, recentTokenHashes, Counter(tokenWindowCounts, tokenWindowCountCapped),
             Uniques(uniqueTokenWindows, uniqueTokenWindowCapped), tokenWindowTotal)
    }

    ghost function SemanticFields(): Semantic
      reads this
    {
      Semantic(semanticCurrentToken, semanticWindowTokens, semanticWindows, semanticHistoryCapped, semanticRepeatCount)
    }

    ghost function State(): ChannelState
      reads this
    {
      ChannelState(fragmentCount, bytesSeen, LineFields(), TokenFields(), recentChars, inputOverlapSeen, SemanticFields())
    }

    ghost predicate Valid()
      reads this
    {
      |recentChars| <= MAX_RECENT_CHARS
    }

    constructor ()
      ensures State() == NewChannel && Valid()
    {
      fragmentCount, bytesSeen := 0, 0;
      pendingLine, pendingLineStart := "", 0;
      lineCounts, lineFirstOffsets, lineCountCapped, lastRepeatedLineFirstOffset := map[], map[], 0, None;
      currentToken, recentTokenHashes := "", [];
      tokenWindowCounts, tokenWindowCountCapped := map[], 0;
      uniqueTokenWindows, uniqueTokenWindowCapped, tokenWindowTotal := {}, 0, 0;
      recentChars, inputOverlapSeen := "", false;
      semanticCurrentToken, semanticWindowTokens, semanticWindows := "", [], [];
      semanticHistoryCapped, semanticRepeatCount := 0, 0;
    }

    method FinishLine(setup: Setup) returns (fired: Option<Detection>)
      modifies this`lineCounts, this`lineCountCapped, this`lineFirstOffsets, this`lastRepeatedLineFirstOffset, this`inputOverlapSeen
      ensures var done := LineScanner.FinishLine(setup, old(LineFields()));
              LineFields() == done.lines && fired == done.fired && inputOverlapSeen == (old(inputOverlapSeen) || done.overlap)
    {
      var normalized := setup.tables.lineHash(pendingLine);
      if normalized.None? {
        return None;
      }
      var hash := normalized.value;
      var overlap := hash in setup.profile.lines;
      if overlap {
        inputOverlapSeen := true;
      }
      var count;
      lineCounts, lineCountCapped, count := IncrementCountWithCap(lineCounts, lineCountCapped, hash, LINE_COUNT_CAP);
      if count.None? {
        return None;
      }
      if hash !in lineFirstOffsets {
        lineFirstOffsets := lineFirstOffsets[hash := pendingLineStart];
      }
      var firstByteOffset := lineFirstOffsets[hash];
      var threshold := AdjustedThreshold(setup.config, setup.config.lineThreshold, overlap);
      if count.value < threshold {
        return None;
      }
      lastRepeatedLineFirstOffset := Some(firstByteOffset);
      return Some(Detection(RepeatedLine, count.value, threshold, overlap));
    }

    method ScanLineChars(setup: Setup, fragment: string, fragmentStart: U64) returns (fired: Option<Detection>)
      modifies this`pendingLine, this`pendingLineStart, this`lineCounts, this`lineCountCapped, this`lineFirstOffsets,
               this`lastRepeatedLineFirstOffset, this`inputOverlapSeen
      ensures var r := ScanLines(setup, old(LineFields()), fragmentStart, fragment);
              LineFields() == r.lines && fired == r.fired && inputOverlapSeen == (old(inputOverlapSeen) || r.overlap)
    {
      ghost var before := LineFields();
      var index: nat := 0;
      for i := 0 to |fragment|
        invariant var r := ScanLines(setup, before, fragmentStart, fragment[..i]);
                  && r.fired.None? && LineFields() == r.lines && r.position == SatAdd64(fragmentStart, index)
                  && inputOverlapSeen == (old(inputOverlapSeen) || r.overlap)
      {
        LineStep(setup, before, fragmentStart, fragment, i);
        var character := fragment[i];
        if character == '\n' {
          fired := FinishLine(setup);
          pendingLine := "";
          pendingLineStart := SatAdd64(fragmentStart, index + CharBytes(character));
          if fired.Some? {
            FiredEarly(setup, before, fragmentStart, fragment, i + 1);
            return fired;
          }
        } else if character != '\r' && Bytes(pendingLine) < MAX_PENDING_LINE_BYTES {
          pendingLine := pendingLine + [character];
        }
        index := index + CharBytes(character);
      }
      assert fragment[..|fragment|] == fragment;
      return None;
    }

    method ObserveLines(setup: Setup, e: Event, fragmentStart: U64) returns (fired: Option<Detection>)
      modifies this`pendingLine, this`pendingLineStart, this`lineCounts, this`lineCountCapped, this`lineFirstOffsets,
               this`lastRepeatedLineFirstOffset, this`inputOverlapSeen
      ensures var done := LinesAfter(setup, old(LineFields()), fragmentStart, e);
              LineFields() == done.lines && fired == done.fired && inputOverlapSeen == (old(inputOverlapSeen) || done.overlap)
    {
      fired := ScanLineChars(setup, e.fragment, fragmentStart);
      if fired.Some? {
        return;
      }
      if Flushes(e.kind) && pendingLine != "" {
        fired := FinishLine(setup);
        pendingLine := "";
      }
    }

    method FinishToken(setup: Setup) returns (fired: Option<Detection>)
      modifies this`currentToken, this`recentTokenHashes, this`tokenWindowCounts, this`tokenWindowCountCapped,
               this`uniqueTokenWindows, this`uniqueTokenWindowCapped, this`tokenWindowTotal, this`inputOverlapSeen
      ensures var done := TokenScanner.FinishToken(setup, old(TokenFields()));
              TokenFields() == done.tokens && fired == done.fired && inputOverlapSeen == (old(inputOverlapSeen) || done.overlap)
    {
      if currentToken == "" {
        return None;
      }
      var tokenHash := setup.tables.hashText(currentToken);
      currentToken := "";
      recentTokenHashes := LastN(setup.config.windowSize, recentTokenHashes + [tokenHash]);
      if |recentTokenHashes| != setup.config.windowSize {
        return None;
      }
      var windowHash := setup.tables.hashWords(recentTokenHashes);
      tokenWindowTotal := SatAdd64(tokenWindowTotal, 1);
      if windowHash !in uniqueTokenWindows {
        if |uniqueTokenWindows| >= WINDOW_COUNT_CAP {
          uniqueTokenWindowCapped := SatAdd64(uniqueTokenWindowCapped, 1);
        } else {
          uniqueTokenWindows := uniqueTokenWindows + {windowHash};
        }
      }
      var overlap := windowHash in setup.profile.windows;
      if overlap {
        inputOverlapSeen := true;
      }
      var count;
      tokenWindowCounts, tokenWindowCountCapped, count :=
        IncrementCountWithCap(tokenWindowCounts, tokenWindowCountCapped, windowHash, WINDOW_COUNT_CAP);
      var threshold := WindowThreshold(setup, windowHash);
      if count.None? || count.value < threshold {
        return None;
      }
      return Some(Detection(RepeatedTokenWindow, count.value, threshold, overlap));
    }

    method ScanTokenChars(setup: Setup, fragment: string) returns (fired: Option<Detection>)
      modifies this`currentToken, this`recentTokenHashes, this`tokenWindowCounts, this`tokenWindowCountCapped,
               this`uniqueTokenWindows, this`uniqueTokenWindowCapped, this`tokenWindowTotal, this`inputOverlapSeen
      ensures var r := ScanTokens(setup, old(TokenFields()), fragment);
              TokenFields() == r.tokens && fired == r.fired && inputOverlapSeen == (old(inputOverlapSeen) || r.overlap)
    {
      ghost var before := TokenFields();
      for i := 0 to |fragment|
        invariant var r := ScanTokens(setup, before, fragment[..i]);
                  && r.fired.None? && TokenFields() == r.tokens && inputOverlapSeen == (old(inputOverlapSeen) || r.overlap)
      {
        TokenStep(setup, before, fragment, i);
        var character := fragment[i];
        if !setup.tables.alphanumeric(character) {
          fired := FinishToken(setup);
          if fired.Some? {
            TokensFiredEarly(setup, before, fragment, i + 1);
            return;
          }
        } else if Bytes(currentToken) < MAX_TOKEN_BYTES {
          currentToken := currentToken + setup.tables.lower(character);
        }
      }
      assert fragment[..|fragment|] == fragment;
      fired := None;
    }

    method ObserveTokens(setup: Setup, e: Event) returns (fired: Option<Detection>)
      modifies this`currentToken, this`recentTokenHashes, this`tokenWindowCounts, this`tokenWindowCountCapped,
               this`uniqueTokenWindows, this`uniqueTokenWindowCapped, this`tokenWindowTotal, this`inputOverlapSeen
      ensures var done := TokensAfter(setup, old(TokenFields()), e);
              TokenFields() == done.tokens && fired == done.fired && inputOverlapSeen == (old(inputOverlapSeen) || done.overlap)
    {
      fired := ScanTokenChars(setup, e.fragment);
      if fired.Some? {
        return;
      }
      if Flushes(e.kind) {
        fired := FinishToken(setup);
      }
    }

    method ObserveSuffixCycle(setup: Setup, e: Event) returns (fired: Option<Detection>)
      requires Valid() && ValidSetup(setup)
      modifies this`recentChars, this`inputOverlapSeen
      ensures Valid() && Staged(State(), fired) == SuffixStage(setup, old(State()), e)
    {
      recentChars := ObserveRecentChars(setup.tables, recentChars, e.fragment);
      var found := SuffixCycles.SuffixCycle(recentChars, setup.config.suffixThreshold);
      if found.None? {
        return None;
      }
      var overlap := setup.tables.hashText(found.value.unit) in setup.profile.lines;
      if overlap {
        inputOverlapSeen := true;
      }
      var threshold := AdjustedThreshold(setup.config, setup.config.suffixThreshold, overlap);
      var repetitions := Clamp(found.value.repetitions);
      fired := if repetitions >= threshold then Some(Detection(SuffixCycle, repetitions, threshold, overlap)) else None;
    }

    method FinishSemanticWindow(setup: Setup) returns (fired: Option<Detection>, ghost marks: seq<Mark>)
      modifies this`semanticWindowTokens, this`semanticWindows, this`semanticHistoryCapped, this`semanticRepeatCount
      ensures SemanticDone(SemanticFields(), marks, fired) == FinishWindow(setup, old(SemanticFields()))
    {
      marks := [];
      if |semanticWindowTokens| < setup.config.semanticMinimumTokens {
        return None, marks;
      }
      var window := WindowOf(setup.tables, semanticWindowTokens);
      var similarity := MaxSimilarity(window, semanticWindows);
      marks := [Judged(semanticWindowTokens, similarity)];
      var threshold := setup.config.similarityThresholdPercent;
      var matched := similarity >= threshold;
      semanticRepeatCount := if matched then SatAdd32(semanticRepeatCount, 1) else 0;
      if matched && semanticRepeatCount >= setup.config.semanticRepeatWindows {
        return Some(Detection(ApproximateRepetition, similarity, threshold, false)), marks;
      }
      if |semanticWindows| >= setup.config.semanticHistoryWindows {
        if semanticWindows != [] {
          semanticWindows := semanticWindows[1..];
        }
        semanticHistoryCapped := SatAdd64(semanticHistoryCapped, 1);
      }
      if |semanticWindows| < HISTORY_CAP {
        semanticWindows := semanticWindows + [window];
      } else {
        semanticHistoryCapped := SatAdd64(semanticHistoryCapped, 1);
      }
      semanticWindowTokens := [];
      return None, marks;
    }

    method FinishSemanticToken(setup: Setup) returns (fired: Option<Detection>, ghost marks: seq<Mark>)
      modifies this`semanticCurrentToken, this`semanticWindowTokens, this`semanticWindows, this`semanticHistoryCapped,
               this`semanticRepeatCount
      ensures SemanticDone(SemanticFields(), marks, fired) == SemanticWindows.FinishSemanticToken(setup, old(SemanticFields()))
    {
      fired, marks := None, [];
      if semanticCurrentToken == "" {
        return;
      }
      var hash := setup.tables.semanticHash(semanticCurrentToken);
      if hash.Some? {
        semanticWindowTokens := semanticWindowTokens + [hash.value];
      }
      semanticCurrentToken := "";
      if |semanticWindowTokens| >= setup.config.semanticWindowTokens {
        fired, marks := FinishSemanticWindow(setup);
      }
    }

    /** Handles a character outside tokens; `stopped` when the rest of the fragment is skipped. */
    method SemanticBreak(setup: Setup, character: char, ghost r: SemanticScan)
      returns (fired: Option<Detection>, stopped: bool, ghost next: SemanticScan)
      requires !AsciiAlphanumeric(character) && r.semantic == SemanticFields()
      modifies this`semanticCurrentToken, this`semanticWindowTokens, this`semanticWindows, this`semanticHistoryCapped,
               this`semanticRepeatCount
      ensures next == ScanSemanticChar(setup, r, character)
      ensures next.semantic == SemanticFields() && next.fired == fired && next.stopped == stopped
    {
      ghost var more;
      fired, more := FinishSemanticToken(setup);
      next := SemanticScan(SemanticFields(), r.marks + [Read(character)] + more, fired, fired.Some?);
      stopped := fired.Some?;
      if fired.None? && character == '\n' {
        if |semanticWindowTokens| >= setup.config.semanticMinimumTokens {
          fired, more := FinishSemanticWindow(setup);
          stopped := true;
          next := SemanticScan(SemanticFields(), next.marks + [LineEnd] + more, fired, true);
        } else {
          semanticWindowTokens := [];
          next := next.(semantic := SemanticFields(), marks := next.marks + [LineEnd]);
        }
      }
    }

    method ScanSemanticChars(setup: Setup, fragment: string)
      returns (fired: Option<Detection>, stopped: bool, ghost marks: seq<Mark>)
      modifies this`semanticCurrentToken, this`semanticWindowTokens, this`semanticWindows, this`semanticHistoryCapped,
               this`semanticRepeatCount
      ensures SemanticScan(SemanticFields(), marks, fired, stopped) == ScanSemantic(setup, old(SemanticFields()), fragment)
    {
      ghost var before := SemanticFields();
      ghost var r := SemanticScan(before, [], None, false);
      for i := 0 to |fragment|
        invariant r == ScanSemantic(setup, before, fragment[..i]) && !r.stopped && r.fired.None? && r.semantic == SemanticFields()
      {
        assert fragment[..i + 1][..i] == fragment[..i];
        if AsciiAlphanumeric(fragment[i]) {
          if Bytes(semanticCurrentToken) < MAX_SEMANTIC_TOKEN_BYTES {
            semanticCurrentToken := semanticCurrentToken + [AsciiLower(fragment[i])];
          }
          r := r.(semantic := SemanticFields(), marks := r.marks + [Read(fragment[i])]);
        } else {
          fired, stopped, r := SemanticBreak(setup, fragment[i], r);
          if stopped {
            SemanticStoppedEarly(setup, before, fragment, i + 1);
            return fired, true, r.marks;
          }
        }
      }
      assert fragment[..|fragment|] == fragment;
      return None, false, r.marks;
    }

    method ObserveSemantic(setup: Setup, e: Event) returns (fired: Option<Detection>, ghost marks: seq<Mark>)
      modifies this`semanticCurrentToken, this`semanticWindowTokens, this`semanticWindows, this`semanticHistoryCapped,
               this`semanticRepeatCount
      ensures SemanticDone(SemanticFields(), marks, fired) == SemanticStage(setup, old(SemanticFields()), e)
    {
      fired, marks := None, [];
      if !e.channel.Reasoning? || !setup.config.semanticEnabled {
        return;
      }
      var stopped;
      fired, stopped, marks := ScanSemanticChars(setup, e.fragment);
      if stopped {
        return;
      }
      if Flushes(e.kind) {
        ghost var more;
        fired, more := FinishSemanticToken(setup);
        marks := marks + [Flush] + more;
      }
    }

    method ObserveLowProgress(setup: Setup) returns (fired: Option<Detection>)
      ensures fired == LowProgress(setup, State())
    {
      var minBytes := setup.config.lowProgressMinBytes;
      if inputOverlapSeen {
        minBytes := SatMul64(minBytes, setup.config.overlapMultiplier);
      }
      if bytesSeen < minBytes || tokenWindowTotal == 0 {
        return None;
      }
      if uniqueTokenWindowCapped > 0 {
        return None;
      }
      var ratio := SatMul64(Clamp(|uniqueTokenWindows|), 100) / tokenWindowTotal;
      if ratio > setup.config.lowProgressRatioPercent {
        return None;
      }
      return Some(Detection(LowProgressGrowth, tokenWindowTotal, minBytes, inputOverlapSeen));
    }

    method ObserveSemanticOn(setup: Setup, e: Event) returns (fired: Option<Detection>, ghost marks: seq<Mark>)
      modifies this`semanticCurrentToken, this`semanticWindowTokens, this`semanticWindows, this`semanticHistoryCapped,
               this`semanticRepeatCount
      ensures Observed(State(), fired, marks) == AfterSuffix(setup, old(State()), e)
    {
      fired, marks := ObserveSemantic(setup, e);
      assert State() == old(State()).(semantic := SemanticStage(setup, old(SemanticFields()), e).semantic);
      if fired.Some? {
        return;
      }
      fired := ObserveLowProgress(setup);
    }

    method ObserveSuffixOn(setup: Setup, e: Event) returns (fired: Option<Detection>, ghost marks: seq<Mark>)
      requires Valid() && ValidSetup(setup)
      modifies this`recentChars, this`inputOverlapSeen, this`semanticCurrentToken, this`semanticWindowTokens,
               this`semanticWindows, this`semanticHistoryCapped, this`semanticRepeatCount
      ensures Valid() && Observed(State(), fired, marks) == AfterTokens(setup, old(State()), e)
    {
      marks := [];
      fired := ObserveSuffixCycle(setup, e);
      if fired.Some? {
        return;
      }
      fired, marks := ObserveSemanticOn(setup, e);
    }

    method ObserveTokensOn(setup: Setup, e: Event) returns (fired: Option<Detection>, ghost marks: seq<Mark>)
      requires Valid() && ValidSetup(setup)
      modifies this
      ensures Valid() && Observed(State(), fired, marks) == AfterLines(setup, old(State()), e)
    {
      marks := [];
      fired := ObserveTokens(setup, e);
      assert Staged(State(), fired) == TokenStage(setup, old(State()), e);
      if fired.Some? {
        return;
      }
      fired, marks := ObserveSuffixOn(setup, e);
    }

    method ObserveLinesOn(setup: Setup, e: Event, fragmentStart: U64) returns (fired: Option<Detection>)
      modifies this`pendingLine, this`pendingLineStart, this`lineCounts, this`lineCountCapped, this`lineFirstOffsets,
               this`lastRepeatedLineFirstOffset, this`inputOverlapSeen
      ensures Staged(State(), fired) == LineStage(setup, old(State()), fragmentStart, e)
    {
      fired := ObserveLines(setup, e, fragmentStart);
    }

    method ObserveEvent(setup: Setup, e: Event) returns (fired: Option<Detection>, ghost marks: seq<Mark>)
      requires Valid() && ValidSetup(setup)
      modifies this
      ensures Valid() && Observed(State(), fired, marks) == Observe(setup, old(State()), e)
    {
      marks := [];
      fragmentCount := SatAdd64(fragmentCount, 1);
      var fragmentStart := bytesSeen;
      bytesSeen := SatAdd64(bytesSeen, Bytes(e.fragment));
      assert State() == Arrive(old(State()), e);
      fired := ObserveLinesOn(setup, e, fragmentStart);
      if fired.Some? {
        return;
      }
      fired, marks := ObserveTokensOn(setup, e);
    }
  }

  method MaxSimilarity(w: Window, history: seq<Window>) returns (best: nat)
    ensures best == BestSimilarity(w, history)
  {
    best := 0;
    for i := 0 to |history|
      invariant best == BestSimilarity(w, history[..i])
    {
      assert history[..i + 1][..i] == history[..i];
      var similarity := Similarity(w, history[i]);
      if similarity > best {
        best := similarity;
      }
    }
    assert history[..|history|] == history;
  }
}
