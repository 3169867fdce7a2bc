/** The semantic stage, told from what it read: which token sequences it judges as windows, against which earlier
    ones, and when it detects a repetition. Nothing here looks at the fields of the stage except `Represents`. */
module SemanticTrace {
  import opened Machine
  import opened Wrappers
  import opened Utf8
  import opened CappedCounts
  import opened LoopSetup
  import opened TokenScanner
  import opened SemanticWindows

  // ---------------------------------------------------------------- similar windows

  /** The length of the run of similarities at or above the threshold that ends the sequence. */
  function TrailingRun(similarities: seq<nat>, threshold: nat): nat {
    if similarities == [] || similarities[|similarities| - 1] < threshold then 0
    else 1 + TrailingRun(similarities[..|similarities| - 1], threshold)
  }

  lemma {:induction false} TrailingRunIsRun(similarities: seq<nat>, threshold: nat)
    ensures var n := TrailingRun(similarities, threshold);
            && n <= |similarities|
            && (forall i :: |similarities| - n <= i < |similarities| ==> similarities[i] >= threshold)
            && (n < |similarities| ==> similarities[|similarities| - n - 1] < threshold)
  {
    if similarities != [] && similarities[|similarities| - 1] >= threshold {
      TrailingRunIsRun(similarities[..|similarities| - 1], threshold);
    }
  }

  /** The similarities of the windows judged. */
  function Similarities(marks: seq<Mark>): seq<nat> {
    if marks == [] then []
    else
      var before, last := Similarities(marks[..|marks| - 1]), marks[|marks| - 1];
      if last.Judged? then before + [last.similarity] else before
  }

  function SimilarRun(setup: Setup, marks: seq<Mark>): nat {
    TrailingRun(Similarities(marks), setup.config.similarityThresholdPercent)
  }

  /** The last thing done was to judge a window that ends the required number of similar ones. */
  predicate Detects(setup: Setup, marks: seq<Mark>) {
    && marks != [] && marks[|marks| - 1].Judged?
    && SimilarRun(setup, marks) >= 1 && SimilarRun(setup, marks) >= setup.config.semanticRepeatWindows
  }

  // ---------------------------------------------------------------- words, tokens and windows

  /** ASCII digits, capitals and small letters. */
  predicate WordChar(c: char) {
    48 <= c as int <= 57 || 65 <= c as int <= 90 || 97 <= c as int <= 122
  }

  /** The word being read: the first 64 of its characters, in small letters. */
  function Word(marks: seq<Mark>): string {
    if marks == [] then ""
    else
      var before := Word(marks[..|marks| - 1]);
      match marks[|marks| - 1]
      case Read(c) =>
        if !WordChar(c) then ""
        else if |before| >= 64 then before
        else before + [if 65 <= c as int <= 90 then (c as int + 32) as char else c]
      case Flush => ""
      case LineEnd => before
      case Judged(_, _) => before
  }

  /** A word ends here. */
  predicate EndsWord(marks: seq<Mark>) {
    && marks != [] && Word(marks[..|marks| - 1]) != ""
    && match marks[|marks| - 1]
       case Read(c) => !WordChar(c)
       case Flush => true
       case LineEnd => false
       case Judged(_, _) => false
  }

  /** The tokens read since the last window was kept or the last short line was dropped. */
  function Pending(setup: Setup, marks: seq<Mark>): seq<Hash> {
    if marks == [] then []
    else
      var before, last := Pending(setup, marks[..|marks| - 1]), marks[|marks| - 1];
      if EndsWord(marks) then
        match setup.tables.semanticHash(Word(marks[..|marks| - 1]))
        case None => before
        case Some(hash) => before + [hash]
      else if last.LineEnd? then if |before| < setup.config.semanticMinimumTokens then [] else before
      else if last.Judged? then if Detects(setup, marks) then before else []
      else before
  }

  /** A window is due: a word made the tokens enough for one, or a line has ended with enough of them. */
  predicate Due(setup: Setup, marks: seq<Mark>) {
    var n := |Pending(setup, marks)|;
    && marks != [] && n >= setup.config.semanticMinimumTokens
    && (marks[|marks| - 1].LineEnd? || (EndsWord(marks) && n >= setup.config.semanticWindowTokens))
  }

  /** A newline was read, and the word before it did not end in a detection. */
  predicate LineDue(setup: Setup, marks: seq<Mark>) {
    var n := |marks|;
    || (n >= 1 && marks[n - 1] == Read('\n'))
    || (n >= 2 && marks[n - 2] == Read('\n') && marks[n - 1].Judged? && !Detects(setup, marks))
  }

  /** The rest of a fragment is skipped after a detection, and after a window that a line ended. */
  predicate Stops(setup: Setup, marks: seq<Mark>) {
    Detects(setup, marks) || (|marks| >= 2 && marks[|marks| - 1].Judged? && marks[|marks| - 2].LineEnd?)
  }

  /** All windows judged that were no detection. */
  function Kept(setup: Setup, marks: seq<Mark>): seq<Window> {
    if marks == [] then []
    else
      var before, last := Kept(setup, marks[..|marks| - 1]), marks[|marks| - 1];
      if last.Judged? && !Detects(setup, marks) then before + [WindowOf(setup.tables, last.tokens)] else before
  }

  /** Those a new window is compared with: the latest of the configured number, at least one; but the first 256 if
      more than 256 are configured. */
  function Compared(setup: Setup, kept: seq<Window>): seq<Window> {
    var size := setup.config.semanticHistoryWindows;
    if size > 256 then if |kept| <= 256 then kept else kept[..256]
    else LastN(if size == 0 then 1 else size, kept)
  }

  /** How many windows were dropped from the history or never entered it. */
  function Dropped(setup: Setup, kept: seq<Window>): nat {
    var room := Min(setup.config.semanticHistoryWindows, 256);
    if |kept| <= room then 0 else |kept| - room
  }

  // ---------------------------------------------------------------- what follows what

  /** What may come after these marks: a window exactly when one is due, of exactly the pending tokens and with the
      best of its similarities; the end of a line exactly after a newline; otherwise more input. */
  ghost predicate Follows(setup: Setup, marks: seq<Mark>, next: Mark) {
    if Due(setup, marks) then
      && next.Judged? && next.tokens == Pending(setup, marks)
      && IsBest(WindowOf(setup.tables, next.tokens), Compared(setup, Kept(setup, marks)), next.similarity)
    else if LineDue(setup, marks) then next.LineEnd?
    else next.Read? || next.Flush?
  }

  ghost predicate Proper(setup: Setup, marks: seq<Mark>) {
    forall i :: 0 <= i < |marks| ==> Follows(setup, marks[..i], marks[i])
  }

  /** Nothing is left to do without more input. */
  predicate Settled(setup: Setup, marks: seq<Mark>) {
    !Due(setup, marks) && !LineDue(setup, marks)
  }

  /** The fields hold this word, these tokens, what is compared of these windows, and this run. */
  predicate Holds(setup: Setup, s: Semantic, word: string, tokens: seq<Hash>, kept: seq<Window>, run: nat) {
    && s.current == word && s.tokens == tokens
    && s.history == Compared(setup, kept) && s.capped == Clamp(Dropped(setup, kept))
    && s.streak == Min(run, U32_MAX)
  }

  /** The fields of the stage are what the marks say. */
  predicate Represents(setup: Setup, s: Semantic, marks: seq<Mark>) {
    Holds(setup, s, Word(marks), Pending(setup, marks), Kept(setup, marks), SimilarRun(setup, marks))
  }

  ghost predicate Traced(setup: Setup, s: Semantic, marks: seq<Mark>) {
    Represents(setup, s, marks) && Proper(setup, marks)
  }

  lemma ProperSnoc(setup: Setup, marks: seq<Mark>, next: Mark)
    requires Proper(setup, marks) && Follows(setup, marks, next)
    ensures Proper(setup, marks + [next])
  {
    var after := marks + [next];
    forall i | 0 <= i < |after| ensures Follows(setup, after[..i], after[i]) {
      assert after[..i] == marks[..i];
      if i == |marks| { assert marks[..i] == marks; }
    }
  }

  // ---------------------------------------------------------------- judging a window

  /** Keeping a window keeps the compared ones and the dropped count in step. */
  lemma KeepIsCompared(setup: Setup, s: Semantic, kept: seq<Window>, w: Window)
    requires s.history == Compared(setup, kept) && s.capped == Clamp(Dropped(setup, kept))
    ensures var next := KeepWindow(setup.config, s, w);
            && next.history == Compared(setup, kept + [w]) && next.capped == Clamp(Dropped(setup, kept + [w]))
  {
    var size := setup.config.semanticHistoryWindows;
    if size > 256 {
      if |kept| > 256 { assert (kept + [w])[..256] == kept[..256]; }
      if |kept| == 256 { assert (kept + [w])[..256] == kept; }
    } else {
      KeepLatest(if size == 0 then 1 else size, kept, w);
    }
  }

  lemma KeepLatest<T>(n: nat, kept: seq<T>, w: T)
    requires n >= 1
    ensures LastN(n, kept + [w]) == (if |LastN(n, kept)| >= n then LastN(n, kept)[1..] else LastN(n, kept)) + [w]
  {
  }

  lemma JudgedRun(setup: Setup, marks: seq<Mark>, tokens: seq<Hash>, similarity: nat)
    ensures var after, threshold := marks + [Judged(tokens, similarity)], setup.config.similarityThresholdPercent;
            SimilarRun(setup, after) == if similarity >= threshold then SimilarRun(setup, marks) + 1 else 0
  {
    var after := marks + [Judged(tokens, similarity)];
    assert after[..|after| - 1] == marks;
    var all := Similarities(after);
    assert all[..|all| - 1] == Similarities(marks);
  }

  /** The detection that marks ending in one call for. */
  function DetectionOf(setup: Setup, marks: seq<Mark>): Option<Detection> {
    if Detects(setup, marks) then
      Some(Detection(ApproximateRepetition, marks[|marks| - 1].similarity, setup.config.similarityThresholdPercent, false))
    else None
  }

  /** What one more judged window changes. */
  lemma JudgedParts(setup: Setup, marks: seq<Mark>, m: Mark)
    requires m.Judged?
    ensures var after := marks + [m];
            && Word(after) == Word(marks)
            && Pending(setup, after) == (if Detects(setup, after) then Pending(setup, marks) else [])
            && Kept(setup, after)
               == Kept(setup, marks) + (if Detects(setup, after) then [] else [WindowOf(setup.tables, m.tokens)])
  {
    var after := marks + [m];
    assert after[..|after| - 1] == marks;
  }

  lemma WindowHolds(setup: Setup, s: Semantic, word: string, kept: seq<Window>, run: nat)
    requires Holds(setup, s, word, s.tokens, kept, run) && |s.tokens| >= setup.config.semanticMinimumTokens
    ensures var w, done, threshold := WindowOf(setup.tables, s.tokens), FinishWindow(setup, s), setup.config.similarityThresholdPercent;
            var best := BestSimilarity(w, s.history);
            var detects := best >= threshold && run + 1 >= setup.config.semanticRepeatWindows;
            && done.marks == [Judged(s.tokens, best)]
            && Holds(setup, done.semantic, word, if detects then s.tokens else [], kept + (if detects then [] else [w]),
                     if best >= threshold then run + 1 else 0)
            && done.fired == (if detects then Some(Detection(ApproximateRepetition, best, threshold, false)) else None)
  {
    assert kept + [] == kept;
    KeepIsCompared(setup, s, kept, WindowOf(setup.tables, s.tokens));
  }

  lemma WindowRepresents(setup: Setup, s: Semantic, marks: seq<Mark>, m: Mark)
    requires Represents(setup, s, marks) && |s.tokens| >= setup.config.semanticMinimumTokens
    requires m == Judged(s.tokens, BestSimilarity(WindowOf(setup.tables, s.tokens), s.history))
    ensures var done := FinishWindow(setup, s);
            && done.marks == [m]
            && Represents(setup, done.semantic, marks + [m])
            && done.fired == DetectionOf(setup, marks + [m])
  {
    WindowHolds(setup, s, Word(marks), Kept(setup, marks), SimilarRun(setup, marks));
    JudgedRun(setup, marks, m.tokens, m.similarity);
    JudgedParts(setup, marks, m);
  }

  lemma WindowTraced(setup: Setup, s: Semantic, marks: seq<Mark>)
    requires Traced(setup, s, marks) && Due(setup, marks)
    ensures var done := FinishWindow(setup, s);
            && |done.marks| == 1 && done.marks[0].Judged?
            && Traced(setup, done.semantic, marks + done.marks)
            && done.fired == DetectionOf(setup, marks + done.marks)
  {
    var w := WindowOf(setup.tables, s.tokens);
    var m := Judged(s.tokens, BestSimilarity(w, s.history));
    WindowRepresents(setup, s, marks, m);
    BestIsMaximum(w, s.history);
    ProperSnoc(setup, marks, m);
  }

  // ---------------------------------------------------------------- ending a word

  lemma {:induction false} WordIsAscii(marks: seq<Mark>)
    ensures Bytes(Word(marks)) == |Word(marks)| <= 64
  {
    if marks != [] {
      var before := marks[..|marks| - 1];
      WordIsAscii(before);
      if marks[|marks| - 1].Read? && Word(marks) != Word(before) && Word(marks) != "" {
        BytesSnoc(Word(before), Word(marks)[|Word(before)|]);
      }
    }
  }

  /** What one more input changes. */
  lemma InputParts(setup: Setup, marks: seq<Mark>, m: Mark)
    requires m.Read? || m.Flush?
    ensures var after := marks + [m];
            && after[..|after| - 1] == marks && !Detects(setup, after)
            && Kept(setup, after) == Kept(setup, marks) && SimilarRun(setup, after) == SimilarRun(setup, marks)
  {
    var after := marks + [m];
    assert after[..|after| - 1] == marks;
  }

  /** The tokens once the current word has been added. */
  function WithWord(setup: Setup, s: Semantic): Semantic {
    if s.current == "" then s
    else
      var hash := setup.tables.semanticHash(s.current);
      s.(current := "", tokens := if hash.Some? then s.tokens + [hash.value] else s.tokens)
  }

  predicate Breaks(m: Mark) {
    m.Flush? || (m.Read? && !WordChar(m.c))
  }

  lemma BreakTraced(setup: Setup, s: Semantic, marks: seq<Mark>, m: Mark)
    requires Traced(setup, s, marks) && Settled(setup, marks) && Breaks(m)
    ensures Traced(setup, WithWord(setup, s), marks + [m])
    ensures EndsWord(marks + [m]) <==> s.current != ""
  {
    InputParts(setup, marks, m);
    ProperSnoc(setup, marks, m);
  }

  /** A word ends, and with it the window if one is due. */
  lemma TokenTraced(setup: Setup, s: Semantic, marks: seq<Mark>, m: Mark)
    requires Traced(setup, s, marks) && Settled(setup, marks) && Breaks(m)
    ensures var done := FinishSemanticToken(setup, s);
            && Traced(setup, done.semantic, marks + [m] + done.marks)
            && done.fired == DetectionOf(setup, marks + [m] + done.marks)
            && (done.marks == [] || (|done.marks| == 1 && done.marks[0].Judged?))
            && !Due(setup, marks + [m] + done.marks)
  {
    BreakTraced(setup, s, marks, m);
    var after := marks + [m];
    if Due(setup, after) {
      WindowTraced(setup, WithWord(setup, s), after);
    } else {
      assert after + [] == after;
    }
  }

  // ---------------------------------------------------------------- ending a line

  lemma LineParts(setup: Setup, marks: seq<Mark>)
    ensures var after := marks + [LineEnd];
            && !Detects(setup, after) && Word(after) == Word(marks) && Kept(setup, after) == Kept(setup, marks)
            && SimilarRun(setup, after) == SimilarRun(setup, marks)
            && Pending(setup, after)
               == (if |Pending(setup, marks)| < setup.config.semanticMinimumTokens then [] else Pending(setup, marks))
  {
    var after := marks + [LineEnd];
    assert after[..|after| - 1] == marks;
  }

  /** A line with too few tokens for a window drops them. */
  lemma ShortLine(setup: Setup, s: Semantic, marks: seq<Mark>)
    requires Traced(setup, s, marks) && !Due(setup, marks) && LineDue(setup, marks)
    requires |s.tokens| < setup.config.semanticMinimumTokens
    ensures Traced(setup, s.(tokens := []), marks + [LineEnd]) && Settled(setup, marks + [LineEnd])
  {
    LineParts(setup, marks);
    ProperSnoc(setup, marks, LineEnd);
  }

  /** A line with enough tokens ends the window and the reading of the fragment. */
  lemma FullLine(setup: Setup, s: Semantic, marks: seq<Mark>)
    requires Traced(setup, s, marks) && !Due(setup, marks) && LineDue(setup, marks)
    requires |s.tokens| >= setup.config.semanticMinimumTokens
    ensures var done := FinishWindow(setup, s);
            && |done.marks| == 1 && done.marks[0].Judged?
            && Traced(setup, done.semantic, marks + [LineEnd] + done.marks)
            && done.fired == DetectionOf(setup, marks + [LineEnd] + done.marks)
            && Settled(setup, marks + [LineEnd] + done.marks) && Stops(setup, marks + [LineEnd] + done.marks)
  {
    LineParts(setup, marks);
    ProperSnoc(setup, marks, LineEnd);
    WindowTraced(setup, s, marks + [LineEnd]);
    LineJudged(setup, marks, FinishWindow(setup, s).marks[0]);
  }

  lemma LineJudged(setup: Setup, marks: seq<Mark>, m: Mark)
    requires m.Judged?
    ensures Settled(setup, marks + [LineEnd] + [m]) && Stops(setup, marks + [LineEnd] + [m])
  {
  }

  // ---------------------------------------------------------------- what is read

  /** The input among the marks. */
  function Inputs(marks: seq<Mark>): seq<Mark> {
    if marks == [] then []
    else
      var before, last := Inputs(marks[..|marks| - 1]), marks[|marks| - 1];
      if last.Read? || last.Flush? then before + [last] else before
  }

  /** A text as input. */
  function Reads(text: string): seq<Mark> {
    if text == [] then [] else Reads(text[..|text| - 1]) + [Read(text[|text| - 1])]
  }

  /** After the earlier marks nothing stops before these end. */
  ghost predicate Unbroken(setup: Setup, earlier: seq<Mark>, marks: seq<Mark>) {
    forall k :: 0 < k < |marks| ==> !Stops(setup, earlier + marks[..k])
  }

  /** The input that is offered is read from its start, all of it unless something stops. */
  ghost predicate Consumes(setup: Setup, earlier: seq<Mark>, marks: seq<Mark>, input: seq<Mark>) {
    && Inputs(marks) <= input && Unbroken(setup, earlier, marks)
    && (Inputs(marks) == input || (marks != [] && Stops(setup, earlier + marks)))
  }

  lemma UnbrokenSnoc(setup: Setup, earlier: seq<Mark>, marks: seq<Mark>, m: Mark)
    requires Unbroken(setup, earlier, marks) && (marks == [] || !Stops(setup, earlier + marks))
    ensures Unbroken(setup, earlier, marks + [m])
    ensures Inputs(marks + [m]) == Inputs(marks) + (if m.Read? || m.Flush? then [m] else [])
  {
    var after := marks + [m];
    assert after[..|marks|] == marks;
    forall k | 0 < k < |after| ensures !Stops(setup, earlier + after[..k]) {
      assert after[..k] == marks[..k];
      if k == |marks| { assert marks[..k] == marks; }
    }
  }

  /** Where the stage is after these marks: its fields, and whether it has detected something or stopped. */
  ghost predicate At(setup: Setup, s: Semantic, marks: seq<Mark>, fired: Option<Detection>, stopped: bool) {
    && Traced(setup, s, marks) && Settled(setup, marks)
    && fired == DetectionOf(setup, marks) && stopped == Stops(setup, marks)
  }

  /** A scan of the text reads it as it should and ends where its marks say. */
  ghost predicate ScanTraced(setup: Setup, earlier: seq<Mark>, text: string, r: SemanticScan) {
    && Consumes(setup, earlier, r.marks, Reads(text))
    && (if r.marks == [] then Traced(setup, r.semantic, earlier) && Settled(setup, earlier) && r.fired.None? && !r.stopped
        else At(setup, r.semantic, earlier + r.marks, r.fired, r.stopped))
  }

  /** One more input character is consumed. */
  lemma ReadConsumes(setup: Setup, earlier: seq<Mark>, marks: seq<Mark>, text: string, c: char)
    requires Inputs(marks) == Reads(text) && Unbroken(setup, earlier, marks) && (marks == [] || !Stops(setup, earlier + marks))
    ensures Inputs(marks + [Read(c)]) == Reads(text + [c]) && Unbroken(setup, earlier, marks + [Read(c)])
  {
    assert (text + [c])[..|text|] == text;
    UnbrokenSnoc(setup, earlier, marks, Read(c));
  }

  lemma Arrived(setup: Setup, earlier: seq<Mark>, text: string, all: seq<Mark>, r: SemanticScan)
    requires r.marks != [] && all == earlier + r.marks && At(setup, r.semantic, all, r.fired, r.stopped)
    requires Inputs(r.marks) == Reads(text) && Unbroken(setup, earlier, r.marks)
    ensures ScanTraced(setup, earlier, text, r)
  {
  }

  lemma GoesOn(setup: Setup, earlier: seq<Mark>, text: string, r: SemanticScan)
    requires ScanTraced(setup, earlier, text, r) && !r.stopped
    ensures Traced(setup, r.semantic, earlier + r.marks) && Settled(setup, earlier + r.marks) && r.fired.None?
    ensures Inputs(r.marks) == Reads(text) && Unbroken(setup, earlier, r.marks)
    ensures r.marks == [] || !Stops(setup, earlier + r.marks)
  {
    if r.marks == [] { assert earlier + r.marks == earlier; }
  }

  lemma LetterAt(setup: Setup, s: Semantic, marks: seq<Mark>, c: char)
    requires Traced(setup, s, marks) && Settled(setup, marks) && WordChar(c)
    ensures At(setup, s.(current := AppendSemantic(s.current, c)), marks + [Read(c)], None, false)
  {
    WordIsAscii(marks);
    InputParts(setup, marks, Read(c));
    ProperSnoc(setup, marks, Read(c));
  }

  lemma Joined(a: seq<Mark>, b: seq<Mark>, c: seq<Mark>)
    ensures a + (b + c) == a + b + c
  {
  }

  lemma LetterScanned(setup: Setup, earlier: seq<Mark>, text: string, r: SemanticScan, c: char, next: SemanticScan)
    requires ScanTraced(setup, earlier, text, r) && !r.stopped && WordChar(c)
    requires next == SemanticScan(r.semantic.(current := AppendSemantic(r.semantic.current, c)), r.marks + [Read(c)], None, false)
    ensures ScanTraced(setup, earlier, text + [c], next)
  {
    Joined(earlier, r.marks, [Read(c)]);
    GoesOn(setup, earlier, text, r);
    LetterAt(setup, r.semantic, earlier + r.marks, c);
    ReadConsumes(setup, earlier, r.marks, text, c);
    Arrived(setup, earlier, text + [c], earlier + r.marks + [Read(c)], next);
  }

  // A character that ends a word: the fields after the word, and after the line if it is a newline.

  lemma WordAt(setup: Setup, s: Semantic, marks: seq<Mark>, c: char)
    requires Traced(setup, s, marks) && Settled(setup, marks) && !WordChar(c)
    ensures var done := FinishSemanticToken(setup, s);
            var after := marks + [Read(c)] + done.marks;
            && Traced(setup, done.semantic, after) && !Due(setup, after)
            && done.fired == DetectionOf(setup, after) && done.fired.Some? == Stops(setup, after)
            && (LineDue(setup, after) <==> done.fired.None? && c == '\n')
            && (done.marks == [] || (|done.marks| == 1 && done.marks[0].Judged?))
  {
    TokenTraced(setup, s, marks, Read(c));
    WordEnd(setup, marks, c, FinishSemanticToken(setup, s).marks);
  }

  lemma WordEnd(setup: Setup, marks: seq<Mark>, c: char, more: seq<Mark>)
    requires more == [] || (|more| == 1 && more[0].Judged?)
    ensures var after := marks + [Read(c)] + more;
            && Stops(setup, after) == Detects(setup, after)
            && (LineDue(setup, after) <==> !Detects(setup, after) && c == '\n')
  {
  }

  /** After something that is no window, one more mark breaks nothing. */
  lemma OneMore(setup: Setup, earlier: seq<Mark>, marks: seq<Mark>, last: Mark, more: seq<Mark>)
    requires Unbroken(setup, earlier, marks + [last]) && !last.Judged?
    requires more == [] || (|more| == 1 && more[0].Judged?)
    ensures Unbroken(setup, earlier, marks + [last] + more) && Inputs(marks + [last] + more) == Inputs(marks + [last])
  {
    var after := marks + [last];
    if more == [] {
      assert after + more == after;
    } else {
      assert after + more == after + [more[0]];
      assert (earlier + after)[|earlier + after| - 1] == last;
      UnbrokenSnoc(setup, earlier, after, more[0]);
    }
  }

  /** The marks that a word's end adds are one more character and perhaps a window. */
  lemma WordConsumes(setup: Setup, earlier: seq<Mark>, marks: seq<Mark>, text: string, c: char, more: seq<Mark>)
    requires Inputs(marks) == Reads(text) && Unbroken(setup, earlier, marks) && (marks == [] || !Stops(setup, earlier + marks))
    requires more == [] || (|more| == 1 && more[0].Judged?)
    ensures Inputs(marks + [Read(c)] + more) == Reads(text + [c]) && Unbroken(setup, earlier, marks + [Read(c)] + more)
  {
    ReadConsumes(setup, earlier, marks, text, c);
    OneMore(setup, earlier, marks, Read(c), more);
  }

  /** So are those that the end of a line adds, without the character. */
  lemma LineConsumes(setup: Setup, earlier: seq<Mark>, marks: seq<Mark>, more: seq<Mark>)
    requires Unbroken(setup, earlier, marks) && (marks == [] || !Stops(setup, earlier + marks))
    requires more == [] || (|more| == 1 && more[0].Judged?)
    ensures Inputs(marks + [LineEnd] + more) == Inputs(marks) && Unbroken(setup, earlier, marks + [LineEnd] + more)
  {
    UnbrokenSnoc(setup, earlier, marks, LineEnd);
    OneMore(setup, earlier, marks, LineEnd, more);
  }

  lemma ShortLineAt(setup: Setup, s: Semantic, marks: seq<Mark>)
    requires Traced(setup, s, marks) && !Due(setup, marks) && LineDue(setup, marks)
    requires |s.tokens| < setup.config.semanticMinimumTokens
    ensures At(setup, s.(tokens := []), marks + [LineEnd], None, false)
  {
    ShortLine(setup, s, marks);
  }

  /** The end of a line after a scan that has just read a newline. */
  lemma LineScanned(setup: Setup, earlier: seq<Mark>, text: string, r: SemanticScan, all: seq<Mark>, next: SemanticScan)
    requires all == earlier + r.marks && Traced(setup, r.semantic, all) && !Due(setup, all) && LineDue(setup, all)
    requires Inputs(r.marks) == Reads(text) && Unbroken(setup, earlier, r.marks) && !Stops(setup, all)
    requires r.fired.None? && !r.stopped && next == ScanNewlineWindow(setup, r)
    ensures ScanTraced(setup, earlier, text, next)
  {
    var more := if |r.semantic.tokens| >= setup.config.semanticMinimumTokens then FinishWindow(setup, r.semantic).marks else [];
    Joined(earlier, r.marks, [LineEnd]);
    Joined(earlier, r.marks + [LineEnd], more);
    assert r.marks + [LineEnd] + [] == r.marks + [LineEnd];
    if |r.semantic.tokens| >= setup.config.semanticMinimumTokens {
      FullLine(setup, r.semantic, all);
      LineConsumes(setup, earlier, r.marks, more);
      Arrived(setup, earlier, text, all + [LineEnd] + more, next);
    } else {
      ShortLineAt(setup, r.semantic, all);
      LineConsumes(setup, earlier, r.marks, []);
      Arrived(setup, earlier, text, all + [LineEnd], next);
    }
  }

  lemma WordScanned(setup: Setup, earlier: seq<Mark>, text: string, r: SemanticScan, c: char, done: SemanticDone, next: SemanticScan)
    requires ScanTraced(setup, earlier, text, r) && !r.stopped && !WordChar(c)
    requires done == FinishSemanticToken(setup, r.semantic)
    requires next == SemanticScan(done.semantic, r.marks + [Read(c)] + done.marks, done.fired, done.fired.Some?)
    ensures var all := earlier + next.marks;
            && Traced(setup, next.semantic, all) && !Due(setup, all) && next.fired == DetectionOf(setup, all)
            && next.stopped == Stops(setup, all) && (LineDue(setup, all) <==> next.fired.None? && c == '\n')
    ensures Inputs(next.marks) == Reads(text + [c]) && Unbroken(setup, earlier, next.marks)
  {
    Joined(earlier, r.marks, [Read(c)]);
    Joined(earlier, r.marks + [Read(c)], done.marks);
    GoesOn(setup, earlier, text, r);
    WordAt(setup, r.semantic, earlier + r.marks, c);
    WordConsumes(setup, earlier, r.marks, text, c, done.marks);
  }

  lemma BreakScanned(setup: Setup, earlier: seq<Mark>, text: string, r: SemanticScan, c: char)
    requires ScanTraced(setup, earlier, text, r) && !r.stopped && !WordChar(c)
    ensures ScanTraced(setup, earlier, text + [c], ScanSemanticChar(setup, r, c))
  {
    var done := FinishSemanticToken(setup, r.semantic);
    var next := SemanticScan(done.semantic, r.marks + [Read(c)] + done.marks, done.fired, done.fired.Some?);
    WordScanned(setup, earlier, text, r, c, done, next);
    if next.fired.None? && c == '\n' {
      LineScanned(setup, earlier, text + [c], next, earlier + next.marks, ScanNewlineWindow(setup, next));
    } else {
      Arrived(setup, earlier, text + [c], earlier + next.marks, next);
    }
  }

  /** However the fields came about, a scan of a fragment reads and judges exactly what is called for. */
  lemma {:induction false} ScanIsTraced(setup: Setup, s: Semantic, earlier: seq<Mark>, text: string)
    requires Traced(setup, s, earlier) && Settled(setup, earlier)
    ensures ScanTraced(setup, earlier, text, ScanSemantic(setup, s, text))
    decreases |text|
  {
    if text != [] {
      var before, c := text[..|text| - 1], text[|text| - 1];
      assert text == before + [c];
      ScanIsTraced(setup, s, earlier, before);
      var r := ScanSemantic(setup, s, before);
      if r.stopped {
        StaysStopped(setup, earlier, before, r, c);
      } else if WordChar(c) {
        GoesOn(setup, earlier, before, r);
        LetterScanned(setup, earlier, before, r, c, ScanSemanticChar(setup, r, c));
      } else {
        BreakScanned(setup, earlier, before, r, c);
      }
    }
  }

  lemma StaysStopped(setup: Setup, earlier: seq<Mark>, text: string, r: SemanticScan, c: char)
    requires ScanTraced(setup, earlier, text, r) && r.stopped
    ensures ScanTraced(setup, earlier, text + [c], r)
  {
    assert (text + [c])[..|text|] == text;
  }

  // ---------------------------------------------------------------- one event

  /** Some input, then perhaps a flush, read from these fields: what the marks say they should be. */
  ghost predicate EventTraced(setup: Setup, earlier: seq<Mark>, input: seq<Mark>, done: SemanticDone) {
    && Consumes(setup, earlier, done.marks, input)
    && Traced(setup, done.semantic, earlier + done.marks) && Settled(setup, earlier + done.marks)
    && done.fired == (if done.marks == [] then None else DetectionOf(setup, earlier + done.marks))
  }

  lemma ScanEnds(setup: Setup, earlier: seq<Mark>, text: string, r: SemanticScan)
    requires ScanTraced(setup, earlier, text, r)
    ensures EventTraced(setup, earlier, Reads(text), SemanticDone(r.semantic, r.marks, r.fired))
  {
    if r.marks == [] { assert earlier + r.marks == earlier; }
  }

  lemma StopsEarly(setup: Setup, earlier: seq<Mark>, text: string, r: SemanticScan)
    requires ScanTraced(setup, earlier, text, r) && r.stopped
    ensures EventTraced(setup, earlier, Reads(text) + [Flush], SemanticDone(r.semantic, r.marks, r.fired))
  {
    ScanEnds(setup, earlier, text, r);
  }

  lemma FlushAt(setup: Setup, s: Semantic, marks: seq<Mark>)
    requires Traced(setup, s, marks) && Settled(setup, marks)
    ensures var done := FinishSemanticToken(setup, s);
            var after := marks + [Flush] + done.marks;
            && Traced(setup, done.semantic, after) && Settled(setup, after) && done.fired == DetectionOf(setup, after)
            && (done.marks == [] || (|done.marks| == 1 && done.marks[0].Judged?))
  {
    TokenTraced(setup, s, marks, Flush);
    FlushEnd(setup, marks, FinishSemanticToken(setup, s).marks);
  }

  lemma FlushEnd(setup: Setup, marks: seq<Mark>, more: seq<Mark>)
    requires more == [] || (|more| == 1 && more[0].Judged?)
    ensures !LineDue(setup, marks + [Flush] + more)
  {
  }

  lemma FlushConsumes(setup: Setup, earlier: seq<Mark>, marks: seq<Mark>, more: seq<Mark>)
    requires Unbroken(setup, earlier, marks) && (marks == [] || !Stops(setup, earlier + marks))
    requires more == [] || (|more| == 1 && more[0].Judged?)
    ensures Inputs(marks + [Flush] + more) == Inputs(marks) + [Flush] && Unbroken(setup, earlier, marks + [Flush] + more)
  {
    UnbrokenSnoc(setup, earlier, marks, Flush);
    OneMore(setup, earlier, marks, Flush, more);
  }

  lemma FlushIsTraced(setup: Setup, earlier: seq<Mark>, text: string, r: SemanticScan, done: SemanticDone)
    requires ScanTraced(setup, earlier, text, r) && !r.stopped && done == FinishSemanticToken(setup, r.semantic)
    ensures EventTraced(setup, earlier, Reads(text) + [Flush], SemanticDone(done.semantic, r.marks + [Flush] + done.marks, done.fired))
  {
    Joined(earlier, r.marks, [Flush]);
    Joined(earlier, r.marks + [Flush], done.marks);
    GoesOn(setup, earlier, text, r);
    FlushAt(setup, r.semantic, earlier + r.marks);
    FlushConsumes(setup, earlier, r.marks, done.marks);
  }

  // ---------------------------------------------------------------- the history

  /** The windows compared are among those kept, and never more than the configured number, 256, or one. */
  lemma ComparedIsBounded(setup: Setup, kept: seq<Window>)
    ensures |Compared(setup, kept)|
         <= Min(if setup.config.semanticHistoryWindows >= 1 then setup.config.semanticHistoryWindows else 1, 256)
    ensures multiset(Compared(setup, kept)) <= multiset(kept)
  {
    var some := Compared(setup, kept);
    if some == kept[..|some|] {
      assert kept == kept[..|some|] + kept[|some|..];
    } else {
      assert kept == kept[..|kept| - |some|] + some;
    }
  }

  /** Before anything is read. */
  lemma NothingRead(setup: Setup)
    ensures Traced(setup, NoSemantic, []) && Settled(setup, [])
  {
  }
}
