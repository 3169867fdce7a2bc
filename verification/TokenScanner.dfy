/** The repeated-token-window stage of a stream channel, and the batch scan of request text. */
module TokenScanner {
  import opened Machine
  import opened Wrappers
  import opened Utf8
  import opened CappedCounts
  import opened LoopSetup

  // ---------------------------------------------------------------- words and windows of a text

  /** A text cut at token boundaries: completed tokens and the one still growing. */
  datatype Words = Words(done: seq<string>, current: string)

  function AppendToken(tables: TextTables, current: string, c: char): string {
    if Bytes(current) < MAX_TOKEN_BYTES then current + tables.lower(c) else current
  }

  function FinishWord(w: Words): Words {
    if w.current == "" then w else Words(w.done + [w.current], "")
  }

  function WordsOf(tables: TextTables, text: string): Words {
    if text == [] then Words([], "")
    else
      var w, c := WordsOf(tables, text[..|text| - 1]), text[|text| - 1];
      if !tables.alphanumeric(c) then FinishWord(w) else w.(current := AppendToken(tables, w.current, c))
  }

  function HashAll(tables: TextTables, words: seq<string>): seq<Hash> {
    seq<Hash>(|words|, i requires 0 <= i < |words| => tables.hashText(words[i]))
  }

  /** The hashes of all runs of `size` consecutive tokens, in order. */
  function Windows(tables: TextTables, size: nat, hashes: seq<Hash>): seq<Hash>
    requires size >= 1
  {
    if |hashes| < size then []
    else seq<Hash>(|hashes| - size + 1, i requires 0 <= i <= |hashes| - size => tables.hashWords(hashes[i..i + size]))
  }

  function LastN<T>(n: nat, s: seq<T>): seq<T> {
    if |s| <= n then s else s[|s| - n..]
  }

  lemma WindowsSnoc(tables: TextTables, size: nat, hashes: seq<Hash>, hash: Hash)
    requires size >= 1
    ensures var after := hashes + [hash];
            && LastN(size, LastN(size, hashes) + [hash]) == LastN(size, after)
            && Windows(tables, size, after) ==
               if |LastN(size, after)| == size then Windows(tables, size, hashes) + [tables.hashWords(LastN(size, after))]
               else Windows(tables, size, hashes)
  {
    var after := hashes + [hash];
    if |after| >= size {
      var before, windows := Windows(tables, size, hashes), Windows(tables, size, after);
      assert after[|after| - size..|after|] == LastN(size, after);
      forall i | 0 <= i < |before| ensures windows[i] == before[i] {
        assert after[i..i + size] == hashes[i..i + size];
      }
      assert windows == before + [tables.hashWords(LastN(size, after))];
    }
  }

  // ---------------------------------------------------------------- the batch scan

  /** The window hashes of a whole text, its last token included. */
  function TextWindows(tables: TextTables, size: nat, text: string): seq<Hash> {
    if size == 0 then [] else Windows(tables, size, HashAll(tables, FinishWord(WordsOf(tables, text)).done))
  }

  /** Completes the current token, if any, and visits the window it completes, if any. */
  method PushTokenWindowHash(tables: TextTables, current: string, recent: seq<Hash>, size: nat)
    returns (recent': seq<Hash>, visited: Option<Hash>)
    requires size >= 1
    ensures recent' == if current == "" then recent else LastN(size, recent + [tables.hashText(current)])
    ensures visited == if current != "" && |recent'| == size then Some(tables.hashWords(recent')) else None
  {
    if current == "" {
      return recent, None;
    }
    recent' := recent + [tables.hashText(current)];
    ghost var all := recent';
    while |recent'| > size
      invariant |LastN(size, all)| <= |recent'| <= |all| && recent' == all[|all| - |recent'|..]
    {
      recent' := recent'[1..];
    }
    visited := if |recent'| == size then Some(tables.hashWords(recent')) else None;
  }

  /** The window hashes in the order in which the visitor is called. */
  method ObserveTokenWindowHashes(tables: TextTables, text: string, size: nat) returns (visited: seq<Hash>)
    ensures visited == TextWindows(tables, size, text)
  {
    visited := [];
    if size == 0 {
      return;
    }
    var current, recent := "", [];
    ghost var words := Words([], "");
    for i := 0 to |text|
      invariant words == WordsOf(tables, text[..i]) && current == words.current
      invariant recent == LastN(size, HashAll(tables, words.done))
      invariant visited == Windows(tables, size, HashAll(tables, words.done))
    {
      assert text[..i + 1][..i] == text[..i];
      if !tables.alphanumeric(text[i]) {
        HashAllSnoc(tables, words.done, current);
        WindowsSnoc(tables, size, HashAll(tables, words.done), tables.hashText(current));
        var window;
        recent, window := PushTokenWindowHash(tables, current, recent, size);
        visited := visited + if window.Some? then [window.value] else [];
        current := "";
        words := FinishWord(words);
      } else {
        current := AppendToken(tables, current, text[i]);
        words := words.(current := current);
      }
    }
    assert text[..|text|] == text;
    HashAllSnoc(tables, words.done, current);
    WindowsSnoc(tables, size, HashAll(tables, words.done), tables.hashText(current));
    var window;
    recent, window := PushTokenWindowHash(tables, current, recent, size);
    visited := visited + if window.Some? then [window.value] else [];
  }

  lemma HashAllSnoc(tables: TextTables, words: seq<string>, word: string)
    ensures HashAll(tables, words + [word]) == HashAll(tables, words) + [tables.hashText(word)]
  {
  }

  // ---------------------------------------------------------------- the streaming scan

  /** The token fields of a channel. */
  datatype Tokens = Tokens(current: string, recent: seq<Hash>, counter: Counter, uniques: Uniques, total: U64)

  const NoTokens := Tokens("", [], Empty, Uniques({}, 0), 0)

  /** The result of finishing a token: the new fields, the window visited, whether the input repeats
      it too, and a detection. */
  datatype TokenDone = TokenDone(tokens: Tokens, visited: Option<Hash>, overlap: bool, fired: Option<Detection>)

  function WindowThreshold(setup: Setup, window: Hash): (threshold: U64)
    ensures threshold == Clamp(setup.config.windowThreshold * if window in setup.profile.windows then setup.config.overlapMultiplier else 1)
  {
    AdjustedThreshold(setup.config, setup.config.windowThreshold, window in setup.profile.windows)
  }

  function VisitWindow(setup: Setup, s: Tokens, window: Hash): TokenDone {
    var (counter, count) := Increment(s.counter, window, WINDOW_COUNT_CAP);
    var tokens := s.(counter := counter, uniques := Track(s.uniques, window, WINDOW_COUNT_CAP), total := SatAdd64(s.total, 1));
    var overlap, threshold := window in setup.profile.windows, WindowThreshold(setup, window);
    TokenDone(tokens, Some(window), overlap,
              if count.Some? && count.value >= threshold then
                Some(Detection(RepeatedTokenWindow, count.value, threshold, overlap))
              else None)
  }

  function FinishToken(setup: Setup, s: Tokens): TokenDone {
    if s.current == "" then TokenDone(s, None, false, None)
    else
      var recent := LastN(setup.config.windowSize, s.recent + [setup.tables.hashText(s.current)]);
      var next := s.(current := "", recent := recent);
      if |recent| != setup.config.windowSize then TokenDone(next, None, false, None)
      else VisitWindow(setup, next, setup.tables.hashWords(recent))
  }

  /** How far a token scan got. */
  datatype TokenScan = TokenScan(tokens: Tokens, visited: seq<Hash>, overlap: bool, fired: Option<Detection>, used: nat)

  function Visits(done: TokenDone): seq<Hash> {
    if done.visited.Some? then [done.visited.value] else []
  }

  function ScanTokenEnd(r: TokenScan, done: TokenDone, used: nat): TokenScan {
    TokenScan(done.tokens, r.visited + Visits(done), r.overlap || done.overlap, done.fired, r.used + used)
  }

  function ScanTokenChar(setup: Setup, r: TokenScan, c: char): TokenScan {
    if !setup.tables.alphanumeric(c) then ScanTokenEnd(r, FinishToken(setup, r.tokens), 1)
    else r.(tokens := r.tokens.(current := AppendToken(setup.tables, r.tokens.current, c)), used := r.used + 1)
  }

  /** Scanning `text` from the given fields; the first detection ends the scan. */
  function ScanTokens(setup: Setup, s: Tokens, text: string): TokenScan {
    if text == [] then TokenScan(s, [], false, None, 0)
    else
      var r := ScanTokens(setup, s, text[..|text| - 1]);
      if r.fired.Some? then r else ScanTokenChar(setup, r, text[|text| - 1])
  }

  function JoinScans(r: TokenScan, more: TokenScan): TokenScan {
    TokenScan(more.tokens, r.visited + more.visited, r.overlap || more.overlap, more.fired, r.used + more.used)
  }

  /** Continuing a scan on further text. */
  function ContinueTokens(setup: Setup, r: TokenScan, text: string): TokenScan {
    if r.fired.Some? then r else JoinScans(r, ScanTokens(setup, r.tokens, text))
  }

  lemma CharJoins(setup: Setup, r: TokenScan, more: TokenScan, c: char)
    requires more.fired.None?
    ensures ScanTokenChar(setup, JoinScans(r, more), c) == JoinScans(r, ScanTokenChar(setup, more, c))
  {
    var done := FinishToken(setup, more.tokens);
    assert r.visited + more.visited + Visits(done) == r.visited + (more.visited + Visits(done));
  }

  /** Scanning is split anywhere: the second part continues the scan of the first. */
  lemma {:induction false} ScanTokensConcat(setup: Setup, s: Tokens, a: string, b: string)
    ensures ScanTokens(setup, s, a + b) == ContinueTokens(setup, ScanTokens(setup, s, a), b)
    decreases |b|
  {
    if b == [] {
      assert a + b == a;
    } else {
      var b' := b[..|b| - 1];
      assert (a + b)[..|a + b| - 1] == a + b';
      ScanTokensConcat(setup, s, a, b');
      var r := ScanTokens(setup, s, a);
      var more := ScanTokens(setup, r.tokens, b');
      if r.fired.None? && more.fired.None? {
        CharJoins(setup, r, more, b[|b| - 1]);
      }
    }
  }

  // ---------------------------------------------------------------- what the scan counts

  /** The last of these windows has been seen often enough. */
  predicate WindowRepeats(setup: Setup, windows: seq<Hash>) {
    windows != [] &&
    var window := windows[|windows| - 1];
    window in Admitted(windows, WINDOW_COUNT_CAP) && Min(Occurrences(windows, window), U32_MAX) >= WindowThreshold(setup, window)
  }

  predicate WindowRepeatsAt(setup: Setup, windows: seq<Hash>, n: nat)
    requires n <= |windows|
  {
    WindowRepeats(setup, windows[..n])
  }

  ghost predicate QuietWindows(setup: Setup, windows: seq<Hash>) {
    forall n: nat :: n <= |windows| ==> !WindowRepeatsAt(setup, windows, n)
  }

  /** The counting fields hold exactly these windows. */
  predicate Counted(s: Tokens, windows: seq<Hash>) {
    && s.counter == Count(windows, WINDOW_COUNT_CAP)
    && s.uniques == TrackAll(windows, WINDOW_COUNT_CAP)
    && s.total == Min(|windows|, U64_MAX)
  }

  lemma VisitCounts(setup: Setup, s: Tokens, windows: seq<Hash>, window: Hash)
    requires Counted(s, windows)
    ensures var after, done := windows + [window], VisitWindow(setup, s, window);
            && Counted(done.tokens, after)
            && (done.fired.Some? <==> WindowRepeats(setup, after))
            && (done.fired.Some? ==>
                  done.fired.value == Detection(RepeatedTokenWindow, Min(Occurrences(after, window), U32_MAX),
                                                WindowThreshold(setup, window), window in setup.profile.windows))
  {
    var after := windows + [window];
    assert after[..|after| - 1] == windows;
    CountIsExact(after, WINDOW_COUNT_CAP);
  }

  /** The fields after a text in which no window repeated, and the windows visited on the way. */
  ghost predicate QuietTokens(setup: Setup, w: Words, s: Tokens, visited: seq<Hash>)
    requires setup.config.windowSize >= 1
  {
    var hashes := HashAll(setup.tables, w.done);
    && s.current == w.current
    && s.recent == LastN(setup.config.windowSize, hashes)
    && visited == Windows(setup.tables, setup.config.windowSize, hashes)
    && Counted(s, visited) && QuietWindows(setup, visited)
  }

  lemma QuietWindowStep(setup: Setup, windows: seq<Hash>, window: Hash)
    requires QuietWindows(setup, windows) && !WindowRepeats(setup, windows + [window])
    ensures QuietWindows(setup, windows + [window])
  {
    var after := windows + [window];
    forall n: nat | n <= |after| ensures !WindowRepeatsAt(setup, after, n) {
      if n <= |windows| {
        assert after[..n] == windows[..n];
        assert !WindowRepeatsAt(setup, windows, n);
      } else {
        assert after[..n] == after;
      }
    }
  }

  /** The visited windows end in the first window that repeats. */
  ghost predicate FiredWindows(setup: Setup, s: Tokens, visited: seq<Hash>) {
    visited != [] && Counted(s, visited) && WindowRepeats(setup, visited) && QuietWindows(setup, visited[..|visited| - 1])
  }

  lemma FinishTokenCounts(setup: Setup, w: Words, s: Tokens, visited: seq<Hash>)
    requires setup.config.windowSize >= 1 && QuietTokens(setup, w, s, visited)
    ensures var done := FinishToken(setup, s);
            var after := visited + Visits(done);
            && after == Windows(setup.tables, setup.config.windowSize, HashAll(setup.tables, FinishWord(w).done))
            && (done.fired.None? ==> QuietTokens(setup, FinishWord(w), done.tokens, after))
            && (done.fired.Some? ==> FiredWindows(setup, done.tokens, after))
  {
    if s.current != "" {
      var size, hashes := setup.config.windowSize, HashAll(setup.tables, w.done);
      HashAllSnoc(setup.tables, w.done, w.current);
      WindowsSnoc(setup.tables, size, hashes, setup.tables.hashText(w.current));
      var recent := LastN(size, s.recent + [setup.tables.hashText(s.current)]);
      if |recent| == size {
        var window := setup.tables.hashWords(recent);
        VisitCounts(setup, s.(current := "", recent := recent), visited, window);
        if FinishToken(setup, s).fired.None? {
          QuietWindowStep(setup, visited, window);
        } else {
          assert (visited + [window])[..|visited|] == visited;
        }
      }
    }
  }

  /** The windows visited by a scan are those of the text it used, in order. */
  ghost predicate Follows(setup: Setup, text: string, r: TokenScan)
    requires setup.config.windowSize >= 1
  {
    && r.used <= |text|
    && (r.fired.None? ==> r.used == |text| && QuietTokens(setup, WordsOf(setup.tables, text), r.tokens, r.visited))
    && (r.fired.Some? ==>
          && FiredWindows(setup, r.tokens, r.visited)
          && r.visited == Windows(setup.tables, setup.config.windowSize, HashAll(setup.tables, WordsOf(setup.tables, text[..r.used]).done)))
  }

  lemma FollowsFired(setup: Setup, text: string, c: char, r: TokenScan)
    requires setup.config.windowSize >= 1 && Follows(setup, text, r) && r.fired.Some?
    ensures Follows(setup, text + [c], r)
  {
    assert (text + [c])[..r.used] == text[..r.used];
  }

  lemma FollowsChar(setup: Setup, text: string, c: char, r: TokenScan)
    requires setup.config.windowSize >= 1 && Follows(setup, text, r) && r.fired.None?
    ensures Follows(setup, text + [c], ScanTokenChar(setup, r, c))
  {
    var after := text + [c];
    assert after[..|after| - 1] == text && after[..|after|] == after;
    if !setup.tables.alphanumeric(c) {
      FinishTokenCounts(setup, WordsOf(setup.tables, text), r.tokens, r.visited);
    }
  }

  lemma {:induction false} ScanFollowsWindows(setup: Setup, text: string)
    requires setup.config.windowSize >= 1
    ensures Follows(setup, text, ScanTokens(setup, NoTokens, text))
  {
    if text == [] {
      assert forall n: nat :: n <= 0 ==> !WindowRepeatsAt(setup, [], n);
    } else {
      var before, c := text[..|text| - 1], text[|text| - 1];
      assert text == before + [c];
      ScanFollowsWindows(setup, before);
      var r := ScanTokens(setup, NoTokens, before);
      if r.fired.Some? {
        FollowsFired(setup, before, c, r);
      } else {
        FollowsChar(setup, before, c, r);
      }
    }
  }

  lemma {:induction false} WordsGrow(tables: TextTables, text: string, n: nat)
    requires n <= |text|
    ensures WordsOf(tables, text[..n]).done <= WordsOf(tables, text).done
    decreases |text|
  {
    if n < |text| {
      var before := text[..|text| - 1];
      assert before[..n] == text[..n];
      WordsGrow(tables, before, n);
    } else {
      assert text[..n] == text;
    }
  }

  lemma WindowsGrow(tables: TextTables, size: nat, a: seq<string>, b: seq<string>)
    requires size >= 1 && a <= b
    ensures Windows(tables, size, HashAll(tables, a)) <= Windows(tables, size, HashAll(tables, b))
  {
    var ha, hb := HashAll(tables, a), HashAll(tables, b);
    assert ha == hb[..|a|];
    var wa, wb := Windows(tables, size, ha), Windows(tables, size, hb);
    forall i | 0 <= i < |wa| ensures wa[i] == wb[i] {
      assert ha[i..i + size] == hb[i..i + size];
    }
  }

  /** The windows completed within a text, its unfinished last token left out. */
  function CompletedWindows(setup: Setup, text: string): seq<Hash>
    requires setup.config.windowSize >= 1
  {
    Windows(setup.tables, setup.config.windowSize, HashAll(setup.tables, WordsOf(setup.tables, text).done))
  }

  /** The token stage stops exactly at the first window that repeats; before that it has counted
      exactly the windows of the text. */
  lemma FirstRepeatedWindow(setup: Setup, text: string)
    requires setup.config.windowSize >= 1
    ensures var r, all := ScanTokens(setup, NoTokens, text), CompletedWindows(setup, text);
            && (r.fired.None? <==> QuietWindows(setup, all))
            && (r.fired.None? ==> r.visited == all && Counted(r.tokens, all))
            && (r.fired.Some? ==> r.visited <= all && FiredWindows(setup, r.tokens, r.visited))
  {
    ScanFollowsWindows(setup, text);
    var r, all := ScanTokens(setup, NoTokens, text), CompletedWindows(setup, text);
    if r.fired.Some? {
      WordsGrow(setup.tables, text, r.used);
      WindowsGrow(setup.tables, setup.config.windowSize, WordsOf(setup.tables, text[..r.used]).done, WordsOf(setup.tables, text).done);
      assert all[..|r.visited|] == r.visited;
      assert WindowRepeatsAt(setup, all, |r.visited|);
    }
  }

  /** Streaming followed by a boundary visits the windows that the batch scan visits. */
  lemma StreamingIsBatch(setup: Setup, text: string)
    requires setup.config.windowSize >= 1 && ScanTokens(setup, NoTokens, text).fired.None?
    ensures var r := ScanTokens(setup, NoTokens, text);
            var done := FinishToken(setup, r.tokens);
            && r.visited + Visits(done) == TextWindows(setup.tables, setup.config.windowSize, text)
            && Counted(done.tokens, r.visited + Visits(done))
  {
    ScanFollowsWindows(setup, text);
    var r := ScanTokens(setup, NoTokens, text);
    FinishTokenCounts(setup, WordsOf(setup.tables, text), r.tokens, r.visited);
  }

  /** Unique windows per hundred windows, as the low-progress stage computes it. */
  function UniqueRatioPercent(s: Tokens): int
    requires s.total > 0
  {
    SatMul64(Clamp(|s.uniques.hashes|), 100) / s.total
  }

  /** A total that has saturated leaves the ratio of a capped number of windows at zero, as it should be. */
  lemma RatioOfClamped(unique: nat, n: nat)
    requires unique <= WINDOW_COUNT_CAP && n > 0
    ensures SatMul64(Clamp(unique), 100) / Min(n, U64_MAX) == unique * 100 / n
  {
    if n > U64_MAX {
      assert unique * 100 / n == 0;
      assert unique * 100 / U64_MAX == 0;
    }
  }

  /** While nothing was capped, the low-progress ratio is the exact share of distinct windows. */
  lemma LowProgressRatioIsExact(s: Tokens, windows: seq<Hash>)
    requires Counted(s, windows) && windows != [] && s.uniques.capped == 0
    ensures UniqueRatioPercent(s) == |Distinct(windows)| * 100 / |windows|
  {
    UncappedIsComplete(windows, WINDOW_COUNT_CAP);
    UncappedExactly(windows, WINDOW_COUNT_CAP);
    RatioOfClamped(|Distinct(windows)|, |windows|);
  }

  // ---------------------------------------------------------------- counting from any state

  /** Finishing a token counts the window it visits, if any. */
  lemma FinishCounts(setup: Setup, s: Tokens, windows: seq<Hash>)
    requires Counted(s, windows)
    ensures var done := FinishToken(setup, s); Counted(done.tokens, windows + Visits(done))
  {
    assert windows + [] == windows;
    if s.current != "" {
      var recent := LastN(setup.config.windowSize, s.recent + [setup.tables.hashText(s.current)]);
      if |recent| == setup.config.windowSize {
        VisitCounts(setup, s.(current := "", recent := recent), windows, setup.tables.hashWords(recent));
      }
    }
  }

  /** Scanning any text from any state counts exactly the windows it visits. */
  lemma {:induction false} ScanCounts(setup: Setup, s: Tokens, windows: seq<Hash>, text: string)
    requires Counted(s, windows)
    ensures var r := ScanTokens(setup, s, text); Counted(r.tokens, windows + r.visited)
    decreases |text|
  {
    if text == [] {
      assert windows + [] == windows;
    } else {
      ScanCounts(setup, s, windows, text[..|text| - 1]);
      var r := ScanTokens(setup, s, text[..|text| - 1]);
      var done := FinishToken(setup, r.tokens);
      FinishCounts(setup, r.tokens, windows + r.visited);
      assert windows + r.visited + Visits(done) == windows + (r.visited + Visits(done));
    }
  }
}
