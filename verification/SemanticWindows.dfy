/** Approximate repetition of reasoning text: windows of word hashes compared by Jaccard similarity,
    with a streak of similar windows required before anything is reported. */
module SemanticWindows {
  import opened Machine
  import opened Wrappers
  import opened Utf8
  import opened CappedCounts
  import opened LoopSetup

  const HISTORY_CAP: nat := 256

  // ---------------------------------------------------------------- similarity

  datatype Window = Window(tokens: set<Hash>, ngrams: set<Hash>)

  function PairHash(tables: TextTables, tokens: seq<Hash>, i: nat): Hash
    requires i + 1 < |tokens|
  {
    tables.hashWords([1, tokens[i], tokens[i + 1]])
  }

  /** The features of a window: its tokens, and its pairs of neighbouring tokens. */
  function WindowOf(tables: TextTables, tokens: seq<Hash>): Window {
    Window(set t | t in tokens :: tables.hashWords([0, t]),
           set i: nat | i + 1 < |tokens| :: PairHash(tables, tokens, i))
  }

  function JaccardPercent(left: set<Hash>, right: set<Hash>): nat {
    if left == {} || right == {} then 0
    else
      var intersection := |left * right|;
      JaccardUnion(left, right);
      intersection * 100 / (|left| + |right| - intersection)
  }

  lemma JaccardUnion(left: set<Hash>, right: set<Hash>)
    ensures |left| + |right| - |left * right| == |left + right|
    ensures left != {} ==> |left + right| > 0
    ensures |left * right| <= |left + right|
  {
    assert left + right == left + (right - left);
    assert right == (right - left) + left * right;
    assert |left + right| == |left| + |right - left|;
    assert |right| == |right - left| + |left * right|;
  }

  lemma FloorOf(n: nat, d: nat)
    requires d > 0
    ensures (n / d) * d <= n < (n / d + 1) * d
  {
    assert n == d * (n / d) + n % d;
  }

  /** Jaccard similarity is the share of common elements in whole percent, rounded down; it is symmetric, and full
      exactly for equal non-empty sets. */
  lemma JaccardIsSimilarity(left: set<Hash>, right: set<Hash>)
    ensures left == {} || right == {} ==> JaccardPercent(left, right) == 0
    ensures left != {} && right != {} ==>
              JaccardPercent(left, right) * |left + right| <= |left * right| * 100 < (JaccardPercent(left, right) + 1) * |left + right|
    ensures JaccardPercent(left, right) == JaccardPercent(right, left)
    ensures 0 <= JaccardPercent(left, right) <= 100
    ensures JaccardPercent(left, right) == 100 <==> left == right && left != {}
  {
    assert left * right == right * left;
    if left != {} && right != {} {
      JaccardUnion(left, right);
      var i, u := |left * right|, |left + right|;
      FloorOf(i * 100, u);
      Percent(i, u);
      if i == u {
        SameSize(left * right, left + right);
      }
      if left == right {
        assert left * right == left + right;
      }
    }
  }

  lemma Percent(i: nat, u: nat)
    requires i <= u && u > 0
    ensures i * 100 / u <= 100 && (i * 100 / u == 100 <==> i == u)
  {
    var q, r := i * 100 / u, i * 100 % u;
    assert i * 100 == u * q + r && 0 <= r < u;
    if q <= 99 {
      MulMonotone(u, q, 99);
    } else if q >= 101 {
      MulMonotone(u, 101, q);
    }
  }

  lemma SameSize(a: set<Hash>, b: set<Hash>)
    requires a <= b && |a| == |b|
    ensures a == b
  {
    assert b == a + (b - a) && |b| == |a| + |b - a|;
  }

  function Similarity(a: Window, b: Window): nat {
    var tokens, ngrams := JaccardPercent(a.tokens, b.tokens), JaccardPercent(a.ngrams, b.ngrams);
    if tokens >= ngrams then tokens else ngrams
  }

  /** The features of tokens are the tagged hashes of each of them and of each two neighbours, and two windows are as
      similar as the more similar kind of their features. */
  lemma FeaturesCompared(tables: TextTables, tokens: seq<Hash>, other: Window)
    ensures var w := WindowOf(tables, tokens);
            && (forall h :: h in w.tokens <==> exists i :: 0 <= i < |tokens| && h == tables.hashWords([0, tokens[i]]))
            && (forall h :: h in w.ngrams <==> exists i :: 1 <= i < |tokens| && h == tables.hashWords([1, tokens[i - 1], tokens[i]]))
            && Similarity(w, other) >= JaccardPercent(w.tokens, other.tokens)
            && Similarity(w, other) >= JaccardPercent(w.ngrams, other.ngrams)
            && Similarity(w, other) in {JaccardPercent(w.tokens, other.tokens), JaccardPercent(w.ngrams, other.ngrams)}
  {
    var w := WindowOf(tables, tokens);
    forall i | 1 <= i < |tokens| ensures tables.hashWords([1, tokens[i - 1], tokens[i]]) in w.ngrams {
      assert tables.hashWords([1, tokens[i - 1], tokens[i]]) == PairHash(tables, tokens, i - 1);
    }
    forall h | h in w.ngrams ensures exists i :: 1 <= i < |tokens| && h == tables.hashWords([1, tokens[i - 1], tokens[i]]) {
      var k: nat :| k + 1 < |tokens| && h == PairHash(tables, tokens, k);
      assert h == tables.hashWords([1, tokens[k + 1 - 1], tokens[k + 1]]);
    }
  }

  /** The highest similarity to a window of the history, or 0. */
  function BestSimilarity(w: Window, history: seq<Window>): nat {
    if history == [] then 0
    else
      var best, last := BestSimilarity(w, history[..|history| - 1]), Similarity(w, history[|history| - 1]);
      if best >= last then best else last
  }

  /** The largest of the similarities to the windows of the history; 0 if there are none. */
  ghost predicate IsBest(w: Window, history: seq<Window>, best: nat) {
    && (forall i :: 0 <= i < |history| ==> Similarity(w, history[i]) <= best)
    && (if history == [] then best == 0 else exists i :: 0 <= i < |history| && Similarity(w, history[i]) == best)
  }

  lemma {:induction false} BestIsMaximum(w: Window, history: seq<Window>)
    ensures IsBest(w, history, BestSimilarity(w, history))
  {
    if history != [] {
      var before, last := history[..|history| - 1], history[|history| - 1];
      BestIsMaximum(w, before);
      var best := BestSimilarity(w, history);
      if Similarity(w, last) == best {
        assert history[|history| - 1] == last;
      } else {
        var i :| 0 <= i < |before| && Similarity(w, before[i]) == best;
        assert history[i] == before[i];
      }
    }
  }

  // ---------------------------------------------------------------- one window

  /** The semantic fields of a channel. */
  datatype Semantic = Semantic(current: string, tokens: seq<Hash>, history: seq<Window>, capped: U64, streak: U32)

  const NoSemantic := Semantic("", [], [], 0, 0)

  /** What the stage did, step by step: it read a character, was told to flush, closed a line, or compared the tokens
      of a window with the history and found this similarity. */
  datatype Mark = Read(c: char) | Flush | LineEnd | Judged(tokens: seq<Hash>, similarity: nat)

  /** The result of a step: the new fields, what was done, and a detection. */
  datatype SemanticDone = SemanticDone(semantic: Semantic, marks: seq<Mark>, fired: Option<Detection>)

  /** The history and its capped counter after keeping a window. */
  function KeepWindow(config: LoopConfig, s: Semantic, w: Window): Semantic {
    var full := |s.history| >= config.semanticHistoryWindows;
    var history := if full && s.history != [] then s.history[1..] else s.history;
    var capped := if full then SatAdd64(s.capped, 1) else s.capped;
    if |history| < HISTORY_CAP then s.(tokens := [], history := history + [w], capped := capped)
    else s.(tokens := [], history := history, capped := SatAdd64(capped, 1))
  }

  function FinishWindow(setup: Setup, s: Semantic): SemanticDone {
    if |s.tokens| < setup.config.semanticMinimumTokens then SemanticDone(s, [], None)
    else
      var w := WindowOf(setup.tables, s.tokens);
      var similarity, threshold := BestSimilarity(w, s.history), setup.config.similarityThresholdPercent;
      var matched := similarity >= threshold;
      var next := s.(streak := if matched then SatAdd32(s.streak, 1) else 0);
      if matched && next.streak >= setup.config.semanticRepeatWindows then
        SemanticDone(next, [Judged(s.tokens, similarity)], Some(Detection(ApproximateRepetition, similarity, threshold, false)))
      else
        SemanticDone(KeepWindow(setup.config, next, w), [Judged(s.tokens, similarity)], None)
  }

  function FinishSemanticToken(setup: Setup, s: Semantic): SemanticDone {
    if s.current == "" then SemanticDone(s, [], None)
    else
      var hash := setup.tables.semanticHash(s.current);
      var next := s.(current := "", tokens := if hash.Some? then s.tokens + [hash.value] else s.tokens);
      if |next.tokens| >= setup.config.semanticWindowTokens then FinishWindow(setup, next)
      else SemanticDone(next, [], None)
  }

  // ---------------------------------------------------------------- a fragment

  predicate AsciiAlphanumeric(c: char) {
    'a' <= c <= 'z' || 'A' <= c <= 'Z' || '0' <= c <= '9'
  }

  function AsciiLower(c: char): char {
    if 'A' <= c <= 'Z' then (c as int + 32) as char else c
  }

  function AppendSemantic(current: string, c: char): string {
    if Bytes(current) < MAX_SEMANTIC_TOKEN_BYTES then current + [AsciiLower(c)] else current
  }

  /** How far the scan of a fragment got; it stops at a detection and at a newline that ends a window. */
  datatype SemanticScan = SemanticScan(semantic: Semantic, marks: seq<Mark>, fired: Option<Detection>, stopped: bool)

  function ScanNewlineWindow(setup: Setup, r: SemanticScan): SemanticScan {
    if |r.semantic.tokens| >= setup.config.semanticMinimumTokens then
      var done := FinishWindow(setup, r.semantic);
      SemanticScan(done.semantic, r.marks + [LineEnd] + done.marks, done.fired, true)
    else
      r.(semantic := r.semantic.(tokens := []), marks := r.marks + [LineEnd])
  }

  function ScanSemanticChar(setup: Setup, r: SemanticScan, c: char): SemanticScan {
    if AsciiAlphanumeric(c) then
      r.(semantic := r.semantic.(current := AppendSemantic(r.semantic.current, c)), marks := r.marks + [Read(c)])
    else
      var done := FinishSemanticToken(setup, r.semantic);
      var next := SemanticScan(done.semantic, r.marks + [Read(c)] + done.marks, done.fired, done.fired.Some?);
      if next.fired.None? && c == '\n' then ScanNewlineWindow(setup, next) else next
  }

  function ScanSemantic(setup: Setup, s: Semantic, text: string): SemanticScan {
    if text == [] then SemanticScan(s, [], None, false)
    else
      var r := ScanSemantic(setup, s, text[..|text| - 1]);
      if r.stopped then r else ScanSemanticChar(setup, r, text[|text| - 1])
  }

  /** A fragment may be cut anywhere before the scan stops; from there on its rest is skipped, so a
      newline that ends a window makes the cut matter. */
  lemma {:induction false} ScanSemanticConcat(setup: Setup, s: Semantic, a: string, b: string)
    ensures var r, all := ScanSemantic(setup, s, a), ScanSemantic(setup, s, a + b);
            if r.stopped then all == r
            else
              var more := ScanSemantic(setup, r.semantic, b);
              all == SemanticScan(more.semantic, r.marks + more.marks, more.fired, more.stopped)
    decreases |b|
  {
    if b == [] {
      assert a + b == a;
      SemanticStops(setup, s, a);
    } else {
      var b' := b[..|b| - 1];
      assert (a + b)[..|a + b| - 1] == a + b';
      ScanSemanticConcat(setup, s, a, b');
      var r := ScanSemantic(setup, s, a);
      var more := ScanSemantic(setup, r.semantic, b');
      if !r.stopped && !more.stopped {
        CharAppends(setup, r.marks, more, b[|b| - 1]);
      }
    }
  }

  lemma {:induction false} SemanticStops(setup: Setup, s: Semantic, text: string)
    ensures var r := ScanSemantic(setup, s, text); r.fired.Some? ==> r.stopped
  {
    if text != [] { SemanticStops(setup, s, text[..|text| - 1]); }
  }

  function Earlier(earlier: seq<Mark>, r: SemanticScan): SemanticScan {
    r.(marks := earlier + r.marks)
  }

  lemma NewlineAppends(setup: Setup, earlier: seq<Mark>, r: SemanticScan)
    ensures ScanNewlineWindow(setup, Earlier(earlier, r)) == Earlier(earlier, ScanNewlineWindow(setup, r))
  {
    var more := FinishWindow(setup, r.semantic).marks;
    assert earlier + r.marks + [LineEnd] + more == earlier + (r.marks + [LineEnd] + more);
    assert earlier + r.marks + [LineEnd] == earlier + (r.marks + [LineEnd]);
  }

  lemma CharAppends(setup: Setup, earlier: seq<Mark>, r: SemanticScan, c: char)
    ensures ScanSemanticChar(setup, Earlier(earlier, r), c) == Earlier(earlier, ScanSemanticChar(setup, r, c))
  {
    var done := FinishSemanticToken(setup, r.semantic);
    assert earlier + r.marks + [Read(c)] == earlier + (r.marks + [Read(c)]);
    assert earlier + r.marks + [Read(c)] + done.marks == earlier + (r.marks + [Read(c)] + done.marks);
    NewlineAppends(setup, earlier, SemanticScan(done.semantic, r.marks + [Read(c)] + done.marks, done.fired, done.fired.Some?));
  }
}
