/** What the repeated-line stage reports, in terms of the lines of the whole text. */
module LineReports {
  import opened Machine
  import opened Wrappers
  import opened Utf8
  import opened CappedCounts
  import opened LoopSetup
  import opened LineScanner

  // ---------------------------------------------------------------- the lines of a text

  /** A completed line: the byte at which it starts, and its characters. */
  datatype Line = Line(start: nat, chars: string)

  /** The characters after the last newline. */
  function Tail(text: string): string {
    if text == [] || text[|text| - 1] == '\n' then [] else Tail(text[..|text| - 1]) + [text[|text| - 1]]
  }

  lemma {:induction false} TailEnds(text: string)
    ensures |Tail(text)| <= |text| && text[|text| - |Tail(text)|..] == Tail(text) && '\n' !in Tail(text)
    ensures |Tail(text)| == |text| || text[|text| - |Tail(text)| - 1] == '\n'
  {
    if text != [] && text[|text| - 1] != '\n' {
      var before, c := text[..|text| - 1], text[|text| - 1];
      TailEnds(before);
      var k := |before| - |Tail(before)|;
      assert before[k..] + [c] == text[k..];
      if k > 0 { assert before[k - 1] == text[k - 1]; }
    }
  }

  /** The byte after the last newline. */
  function TailStart(text: string): nat {
    if text == [] then 0 else if text[|text| - 1] == '\n' then Bytes(text) else TailStart(text[..|text| - 1])
  }

  lemma {:induction false} TailStartBytes(text: string)
    ensures |Tail(text)| <= |text| && TailStart(text) == Bytes(text[..|text| - |Tail(text)|])
  {
    if text != [] && text[|text| - 1] != '\n' {
      var before := text[..|text| - 1];
      TailStartBytes(before);
      assert text[..|text| - |Tail(text)|] == before[..|before| - |Tail(before)|];
    } else {
      assert text[..|text|] == text;
    }
  }

  function LinesOf(text: string): seq<Line> {
    if text == [] then []
    else
      var before := text[..|text| - 1];
      if text[|text| - 1] != '\n' then LinesOf(before)
      else LinesOf(before) + [Line(TailStart(before), Tail(before))]
  }

  predicate StandsAt(line: Line, text: string, p: nat) {
    && p + |line.chars| < |text| && text[p..p + |line.chars|] == line.chars && text[p + |line.chars|] == '\n'
    && '\n' !in line.chars && line.start == Bytes(text[..p]) && (p == 0 || text[p - 1] == '\n')
  }

  /** The line stands in the text at its start, between newlines or the beginning of the text. */
  ghost predicate StandsIn(line: Line, text: string) {
    exists p: nat :: StandsAt(line, text, p)
  }

  lemma StandsAtEnd(chars: string, before: string, p: nat)
    requires p <= |before| && before[p..] == chars && '\n' !in chars && (p == 0 || before[p - 1] == '\n')
    ensures StandsAt(Line(Bytes(before[..p]), chars), before + ['\n'], p)
  {
    var text := before + ['\n'];
    assert text[p..p + |chars|] == before[p..];
    assert text[..p] == before[..p];
  }

  lemma LastLineStands(before: string)
    ensures StandsIn(Line(TailStart(before), Tail(before)), before + ['\n'])
  {
    TailEnds(before);
    TailStartBytes(before);
    StandsAtEnd(Tail(before), before, |before| - |Tail(before)|);
  }

  lemma {:induction false} LinesStandInText(text: string)
    ensures forall i :: 0 <= i < |LinesOf(text)| ==> StandsIn(LinesOf(text)[i], text)
  {
    if text != [] {
      var before, c := text[..|text| - 1], text[|text| - 1];
      assert text == before + [c];
      LinesStandInText(before);
      forall i | 0 <= i < |LinesOf(before)| ensures StandsIn(LinesOf(before)[i], text) {
        StandsStill(LinesOf(before)[i], before, c);
      }
      if c == '\n' {
        LastLineStands(before);
      }
    }
  }

  lemma StandsStill(line: Line, before: string, c: char)
    requires StandsIn(line, before)
    ensures StandsIn(line, before + [c])
  {
    var p: nat :| StandsAt(line, before, p);
    var text := before + [c];
    assert text[p..p + |line.chars|] == before[p..p + |line.chars|] && text[..p] == before[..p];
    assert StandsAt(line, text, p);
  }

  // ---------------------------------------------------------------- lines that are counted

  function PendingOf(chars: string): string {
    if chars == [] then "" else AppendPending(PendingOf(chars[..|chars| - 1]), chars[|chars| - 1])
  }

  datatype HashedLine = HashedLine(start: nat, hash: Hash)

  /** The lines long enough to count, with their hashes. */
  function Hashed(tables: TextTables, lines: seq<Line>): seq<HashedLine> {
    if lines == [] then []
    else
      var before, last := Hashed(tables, lines[..|lines| - 1]), lines[|lines| - 1];
      match tables.lineHash(PendingOf(last.chars))
      case None => before
      case Some(hash) => before + [HashedLine(last.start, hash)]
  }

  function Hashes(lines: seq<HashedLine>): seq<Hash> {
    seq(|lines|, i requires 0 <= i < |lines| => lines[i].hash)
  }

  function Threshold(setup: Setup, hash: Hash): (threshold: U64)
    ensures threshold == Clamp(setup.config.lineThreshold * if hash in setup.profile.lines then setup.config.overlapMultiplier else 1)
  {
    AdjustedThreshold(setup.config, setup.config.lineThreshold, hash in setup.profile.lines)
  }

  /** The last of these lines has been seen often enough: its hash is among the tracked ones and
      occurs at least threshold times. */
  predicate Repeats(setup: Setup, lines: seq<HashedLine>) {
    lines != [] &&
    var hash, hashes := lines[|lines| - 1].hash, Hashes(lines);
    hash in Admitted(hashes, LINE_COUNT_CAP) && Min(Occurrences(hashes, hash), U32_MAX) >= Threshold(setup, hash)
  }

  /** `m` is the first of these lines with the given hash. */
  predicate FirstWith(lines: seq<HashedLine>, hash: Hash, m: nat) {
    m < |lines| && lines[m].hash == hash && forall i :: 0 <= i < m ==> lines[i].hash != hash
  }

  /** The fields agree with the counted lines so far. */
  ghost predicate Agrees(s: Lines, lines: seq<HashedLine>) {
    && s.counter == Count(Hashes(lines), LINE_COUNT_CAP)
    && s.firstOffsets.Keys == s.counter.counts.Keys
    && forall hash: Hash, m: nat :: hash in s.firstOffsets && FirstWith(lines, hash, m) ==> s.firstOffsets[hash] == Clamp(lines[m].start)
  }

  /** The first line with a hash stays first; a hash tracked from now on was never seen before. */
  lemma OffsetsAgree(s: Lines, lines: seq<HashedLine>, start: nat, hash: Hash)
    requires Agrees(s, lines) && s.pendingStart == Clamp(start)
    requires Increment(s.counter, hash, LINE_COUNT_CAP).1.Some?
    ensures var after := lines + [HashedLine(start, hash)];
            var offsets := if hash in s.firstOffsets then s.firstOffsets else s.firstOffsets[hash := s.pendingStart];
            forall h: Hash, m: nat :: h in offsets && FirstWith(after, h, m) ==> offsets[h] == Clamp(after[m].start)
  {
    var after, keys := lines + [HashedLine(start, hash)], Hashes(lines);
    var offsets := if hash in s.firstOffsets then s.firstOffsets else s.firstOffsets[hash := s.pendingStart];
    forall h: Hash, m: nat | h in offsets && FirstWith(after, h, m) ensures offsets[h] == Clamp(after[m].start) {
      if h in s.firstOffsets {
        TrackedIsSeen(keys, h, LINE_COUNT_CAP);
        var i :| 0 <= i < |lines| && lines[i].hash == h;
        assert after[i].hash == h;
        assert forall i :: 0 <= i < |lines| ==> lines[i] == after[i];
        assert FirstWith(lines, h, m);
      } else {
        UntrackedIsUnseen(keys, hash, LINE_COUNT_CAP);
        assert forall i :: 0 <= i < |lines| ==> keys[i] == lines[i].hash;
      }
    }
  }

  lemma CountAfter(lines: seq<HashedLine>, line: HashedLine)
    ensures var before, keys := Hashes(lines), Hashes(lines + [line]);
            var (counter, count) := Increment(Count(before, LINE_COUNT_CAP), line.hash, LINE_COUNT_CAP);
            && counter == Count(keys, LINE_COUNT_CAP)
            && (count.Some? <==> line.hash in Admitted(keys, LINE_COUNT_CAP))
            && (count.Some? ==> count.value == Min(Occurrences(keys, line.hash), U32_MAX))
  {
    var before, keys := Hashes(lines), Hashes(lines + [line]);
    assert keys == before + [line.hash] && keys[..|keys| - 1] == before;
    CountIsExact(keys, LINE_COUNT_CAP);
  }

  lemma FinishAgrees(setup: Setup, s: Lines, lines: seq<HashedLine>, start: nat, hash: Hash)
    requires Agrees(s, lines) && setup.tables.lineHash(s.pending) == Some(hash) && s.pendingStart == Clamp(start)
    ensures var after, r := lines + [HashedLine(start, hash)], FinishLine(setup, s);
            && Agrees(r.lines, after)
            && (r.fired.Some? <==> Repeats(setup, after))
            && (r.fired.None? ==> r.lines.reported == s.reported)
            && (r.fired.Some? ==>
                  && hash in r.lines.firstOffsets && r.lines.reported == Some(r.lines.firstOffsets[hash])
                  && r.fired.value == Detection(RepeatedLine, Min(Occurrences(Hashes(after), hash), U32_MAX),
                                                Threshold(setup, hash), hash in setup.profile.lines))
  {
    var after := lines + [HashedLine(start, hash)];
    CountAfter(lines, HashedLine(start, hash));
    var (counter, count) := Increment(s.counter, hash, LINE_COUNT_CAP);
    if count.Some? {
      OffsetsAgree(s, lines, start, hash);
    } else {
      DroppedOffsetsAgree(s, lines, start, hash);
    }
  }

  lemma DroppedOffsetsAgree(s: Lines, lines: seq<HashedLine>, start: nat, hash: Hash)
    requires Agrees(s, lines) && hash !in s.counter.counts
    ensures var after := lines + [HashedLine(start, hash)];
            forall h: Hash, m: nat :: h in s.firstOffsets && FirstWith(after, h, m) ==> s.firstOffsets[h] == Clamp(after[m].start)
  {
    var after := lines + [HashedLine(start, hash)];
    forall h: Hash, m: nat | h in s.firstOffsets && FirstWith(after, h, m)
      ensures s.firstOffsets[h] == Clamp(after[m].start)
    {
      assert h != hash;
      assert forall i :: 0 <= i < |lines| ==> lines[i] == after[i];
      assert FirstWith(lines, h, m);
    }
  }

  // ---------------------------------------------------------------- whole texts

  predicate RepeatsAt(setup: Setup, lines: seq<HashedLine>, n: nat)
    requires n <= |lines|
  {
    Repeats(setup, lines[..n])
  }

  /** None of these lines repeats when it is completed. */
  ghost predicate Quiet(setup: Setup, lines: seq<HashedLine>) {
    forall n: nat :: n <= |lines| ==> !RepeatsAt(setup, lines, n)
  }

  function CountedLines(setup: Setup, text: string): seq<HashedLine> {
    Hashed(setup.tables, LinesOf(text))
  }

  /** The fields after these lines, when none of them repeated. */
  ghost predicate QuietFields(setup: Setup, lines: seq<HashedLine>, s: Lines) {
    Agrees(s, lines) && Quiet(setup, lines) && s.reported.None?
  }

  /** The fields after these lines, when the last of them is the first to repeat. */
  ghost predicate FiredFields(setup: Setup, lines: seq<HashedLine>, s: Lines, fired: Option<Detection>) {
    && lines != [] && Repeats(setup, lines) && Quiet(setup, lines[..|lines| - 1])
    && var hash := lines[|lines| - 1].hash;
    && Agrees(s, lines) && hash in s.firstOffsets && s.reported == Some(s.firstOffsets[hash])
    && fired == Some(Detection(RepeatedLine, Min(Occurrences(Hashes(lines), hash), U32_MAX),
                               Threshold(setup, hash), hash in setup.profile.lines))
  }

  /** What the scanner knows of a text: its counted lines, the pending characters and the byte at
      which they start, and its length in bytes. */
  datatype View = View(lines: seq<HashedLine>, pending: string, start: nat, bytes: nat)

  function ViewOf(setup: Setup, text: string): View {
    View(CountedLines(setup, text), PendingOf(Tail(text)), TailStart(text), Bytes(text))
  }

  /** What a scan leaves when nothing repeated. */
  ghost predicate QuietScan(setup: Setup, v: View, r: LineScan) {
    && QuietFields(setup, v.lines, r.lines) && r.lines.pending == v.pending
    && r.lines.pendingStart == Clamp(v.start) && r.position == Clamp(v.bytes)
  }

  /** What it leaves after a newline, which may have completed the first line that repeats. */
  ghost predicate AfterNewline(setup: Setup, v: View, r: LineScan) {
    if r.fired.None? then QuietScan(setup, v, r) else FiredFields(setup, v.lines, r.lines, r.fired)
  }

  lemma QuietStep(setup: Setup, lines: seq<HashedLine>, line: HashedLine)
    requires Quiet(setup, lines) && !Repeats(setup, lines + [line])
    ensures Quiet(setup, lines + [line])
  {
    var after := lines + [line];
    forall n: nat | n <= |after| ensures !RepeatsAt(setup, after, n) {
      if n <= |lines| {
        assert after[..n] == lines[..n];
        assert !RepeatsAt(setup, lines, n);
      } else {
        assert after[..n] == after;
      }
    }
  }

  lemma OrdinaryView(setup: Setup, before: string, c: char)
    requires c != '\n'
    ensures var v := ViewOf(setup, before);
            ViewOf(setup, before + [c]) == v.(pending := AppendPending(v.pending, c), bytes := v.bytes + CharBytes(c))
  {
    var text := before + [c];
    assert text[..|text| - 1] == before;
    assert Tail(text)[..|Tail(text)| - 1] == Tail(before);
  }

  lemma HashedSnoc(tables: TextTables, lines: seq<Line>, line: Line)
    ensures Hashed(tables, lines + [line]) ==
            match tables.lineHash(PendingOf(line.chars))
            case None => Hashed(tables, lines)
            case Some(hash) => Hashed(tables, lines) + [HashedLine(line.start, hash)]
  {
    assert (lines + [line])[..|lines|] == lines;
  }

  lemma FinishCounted(setup: Setup, lines: seq<HashedLine>, s: Lines, start: nat, hash: Hash)
    requires QuietFields(setup, lines, s) && setup.tables.lineHash(s.pending) == Some(hash) && s.pendingStart == Clamp(start)
    ensures var after, r := lines + [HashedLine(start, hash)], FinishLine(setup, s);
            if r.fired.None? then QuietFields(setup, after, r.lines) else FiredFields(setup, after, r.lines, r.fired)
  {
    FinishAgrees(setup, s, lines, start, hash);
    var line := HashedLine(start, hash);
    if FinishLine(setup, s).fired.None? {
      QuietStep(setup, lines, line);
    } else {
      assert (lines + [line])[..|lines|] == lines;
    }
  }

  /** The counted lines with one more line, if it is long enough. */
  function WithLine(setup: Setup, lines: seq<HashedLine>, start: nat, pending: string): seq<HashedLine> {
    match setup.tables.lineHash(pending)
    case None => lines
    case Some(hash) => lines + [HashedLine(start, hash)]
  }

  function NewlineView(setup: Setup, v: View): View {
    View(WithLine(setup, v.lines, v.start, v.pending), "", v.bytes + 1, v.bytes + 1)
  }

  lemma CountedAfterNewline(setup: Setup, before: string)
    ensures CountedLines(setup, before + ['\n']) ==
            WithLine(setup, CountedLines(setup, before), TailStart(before), PendingOf(Tail(before)))
  {
    assert (before + ['\n'])[..|before|] == before;
    HashedSnoc(setup.tables, LinesOf(before), Line(TailStart(before), Tail(before)));
  }

  lemma NewlineViewOf(setup: Setup, before: string)
    ensures ViewOf(setup, before + ['\n']) == NewlineView(setup, ViewOf(setup, before))
  {
    CountedAfterNewline(setup, before);
    BytesSnoc(before, '\n');
  }

  lemma NewlineScan(setup: Setup, v: View, r: LineScan)
    requires QuietScan(setup, v, r)
    ensures AfterNewline(setup, NewlineView(setup, v), ScanChar(setup, r, '\n'))
  {
    var hash := setup.tables.lineHash(v.pending);
    if hash.Some? {
      FinishCounted(setup, v.lines, r.lines, v.start, hash.value);
    }
  }

  /** The outcome of scanning a text from the start. */
  ghost predicate Follows(setup: Setup, text: string, r: LineScan) {
    && r.used <= |text|
    && (r.fired.None? ==> r.used == |text| && QuietScan(setup, ViewOf(setup, text), r))
    && (r.fired.Some? ==>
          && 0 < r.used && text[r.used - 1] == '\n'
          && FiredFields(setup, CountedLines(setup, text[..r.used]), r.lines, r.fired))
  }

  lemma CharFollows(setup: Setup, before: string, c: char, r: LineScan)
    requires Follows(setup, before, r) && r.fired.None?
    ensures Follows(setup, before + [c], ScanChar(setup, r, c))
  {
    assert (before + [c])[..|before| + 1] == before + [c];
    if c == '\n' {
      NewlineViewOf(setup, before);
      NewlineScan(setup, ViewOf(setup, before), r);
    } else {
      OrdinaryView(setup, before, c);
    }
  }

  lemma {:induction false} ScanFollowsLines(setup: Setup, text: string)
    ensures Follows(setup, text, ScanLines(setup, NoLines, 0, text))
  {
    if text != [] {
      var before, c := text[..|text| - 1], text[|text| - 1];
      assert text == before + [c];
      ScanFollowsLines(setup, before);
      var r := ScanLines(setup, NoLines, 0, before);
      if r.fired.Some? {
        assert text[..r.used] == before[..r.used];
      } else {
        CharFollows(setup, before, c, r);
      }
    }
  }

  lemma {:induction false} CountedGrow(setup: Setup, text: string, n: nat)
    requires n <= |text|
    ensures CountedLines(setup, text[..n]) <= CountedLines(setup, text)
    decreases |text|
  {
    if n < |text| {
      var before := text[..|text| - 1];
      assert before[..n] == text[..n];
      CountedGrow(setup, before, n);
      if text[|text| - 1] == '\n' {
        assert LinesOf(text)[..|LinesOf(text)| - 1] == LinesOf(before);
      }
      assert CountedLines(setup, before) <= CountedLines(setup, text);
    } else {
      assert text[..n] == text;
    }
  }

  /** A counted line is a line of the text. */
  lemma {:induction false} CountedLinesStandInText(setup: Setup, text: string, lines: seq<Line>, m: nat)
    requires m < |Hashed(setup.tables, lines)|
    requires forall i :: 0 <= i < |lines| ==> StandsIn(lines[i], text)
    ensures exists line :: StandsIn(line, text) && line.start == Hashed(setup.tables, lines)[m].start
                           && setup.tables.lineHash(PendingOf(line.chars)) == Some(Hashed(setup.tables, lines)[m].hash)
    decreases |lines|
  {
    var before, last := lines[..|lines| - 1], lines[|lines| - 1];
    if m < |Hashed(setup.tables, before)| {
      CountedLinesStandInText(setup, text, before, m);
    } else {
      assert StandsIn(last, text);
    }
  }

  /** The byte offset reported at the first repetition is where the first line with its hash starts. */
  ghost predicate ReportsFirst(setup: Setup, text: string, n: nat, reported: Option<U64>)
    requires 0 < n <= |CountedLines(setup, text)|
  {
    var all := CountedLines(setup, text);
    exists m: nat, line ::
      && m < n && FirstWith(all, all[n - 1].hash, m) && reported == Some(Clamp(all[m].start))
      && StandsIn(line, text) && line.start == all[m].start
      && setup.tables.lineHash(PendingOf(line.chars)) == Some(all[n - 1].hash)
  }

  lemma FirstOffsetReported(setup: Setup, text: string, n: nat, s: Lines)
    requires 0 < n <= |CountedLines(setup, text)| && Agrees(s, CountedLines(setup, text)[..n])
    requires var hash := CountedLines(setup, text)[n - 1].hash;
             hash in s.firstOffsets && s.reported == Some(s.firstOffsets[hash])
    ensures ReportsFirst(setup, text, n, s.reported)
  {
    var all := CountedLines(setup, text);
    var lines, hash := all[..n], all[n - 1].hash;
    assert lines[n - 1].hash == hash;
    var m := FirstIndex(lines, hash);
    assert forall i :: 0 <= i < n ==> lines[i] == all[i];
    assert FirstWith(all, hash, m);
    LinesStandInText(text);
    CountedLinesStandInText(setup, text, LinesOf(text), m);
  }

  /** Line `n` of the text is the first that repeats, and the report is about its hash. */
  ghost predicate FirstRepetition(setup: Setup, text: string, n: nat, reported: Option<U64>) {
    var all := CountedLines(setup, text);
    0 < n <= |all| && RepeatsAt(setup, all, n) && Quiet(setup, all[..n - 1]) && ReportsFirst(setup, text, n, reported)
  }

  lemma FiredIsFirst(setup: Setup, text: string, used: nat, s: Lines, fired: Option<Detection>)
    requires used <= |text| && FiredFields(setup, CountedLines(setup, text[..used]), s, fired)
    ensures FirstRepetition(setup, text, |CountedLines(setup, text[..used])|, s.reported)
    ensures !Quiet(setup, CountedLines(setup, text))
  {
    CountedGrow(setup, text, used);
    var lines, all := CountedLines(setup, text[..used]), CountedLines(setup, text);
    var n := |lines|;
    assert all[..n] == lines && all[..n - 1] == lines[..n - 1];
    assert RepeatsAt(setup, all, n);
    FirstOffsetReported(setup, text, n, s);
  }

  /** The scan of a text stops exactly at the first repetition, if there is one. */
  ghost predicate StopsAtFirstRepetition(setup: Setup, text: string, r: LineScan) {
    if r.fired.None? then Quiet(setup, CountedLines(setup, text))
    else
      && !Quiet(setup, CountedLines(setup, text))
      && 0 < r.used <= |text| && text[r.used - 1] == '\n'
      && FirstRepetition(setup, text, |CountedLines(setup, text[..r.used])|, r.lines.reported)
  }

  lemma ScanStops(setup: Setup, text: string, r: LineScan)
    requires Follows(setup, text, r)
    ensures StopsAtFirstRepetition(setup, text, r)
  {
    if r.fired.Some? {
      FiredIsFirst(setup, text, r.used, r.lines, r.fired);
    }
  }

  /** The repeated-line stage reports exactly the first completed line that repeats, and the byte
      at which the first line with its hash starts. */
  lemma FirstRepeatedLine(setup: Setup, text: string)
    ensures StopsAtFirstRepetition(setup, text, ScanLines(setup, NoLines, 0, text))
  {
    ScanFollowsLines(setup, text);
    ScanStops(setup, text, ScanLines(setup, NoLines, 0, text));
  }

  /** What a report says about the text: it names the first repetition, or there is none. */
  ghost predicate Reports(setup: Setup, text: string, fired: Option<Detection>, reported: Option<U64>) {
    if fired.None? then Quiet(setup, CountedLines(setup, text))
    else exists n: nat :: FirstRepetition(setup, text, n, reported)
  }

  lemma ScanReports(setup: Setup, text: string, r: LineScan)
    requires StopsAtFirstRepetition(setup, text, r)
    ensures Reports(setup, text, r.fired, r.lines.reported)
  {
  }

  lemma FirstIndex(lines: seq<HashedLine>, hash: Hash) returns (m: nat)
    requires exists i :: 0 <= i < |lines| && lines[i].hash == hash
    ensures FirstWith(lines, hash, m)
  {
    m := 0;
    while lines[m].hash != hash
      invariant m < |lines| && forall i :: 0 <= i < m ==> lines[i].hash != hash
      decreases |lines| - m
    {
      m := m + 1;
    }
  }
}
