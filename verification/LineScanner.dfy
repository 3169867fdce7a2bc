/** The repeated-line stage of a stream channel. */
module LineScanner {
  import opened Machine
  import opened Wrappers
  import opened Utf8
  import opened CappedCounts
  import opened LoopSetup

  /** The line fields of a channel. */
  datatype Lines = Lines(
    pending: string,
    pendingStart: U64,
    counter: Counter,
    firstOffsets: map<Hash, U64>,
    reported: Option<U64>)

  const NoLines := Lines("", 0, Empty, map[], None)

  /** The result of finishing a line: the new fields, whether the input holds the line too, and a detection. */
  datatype Finished = Finished(lines: Lines, overlap: bool, fired: Option<Detection>)

  function FinishLine(setup: Setup, s: Lines): Finished {
    match setup.tables.lineHash(s.pending)
    case None => Finished(s, false, None)
    case Some(hash) =>
      var overlap := hash in setup.profile.lines;
      var (counter, count) := Increment(s.counter, hash, LINE_COUNT_CAP);
      if count.None? then Finished(s.(counter := counter), overlap, None)
      else
        var offsets := if hash in s.firstOffsets then s.firstOffsets else s.firstOffsets[hash := s.pendingStart];
        var threshold := AdjustedThreshold(setup.config, setup.config.lineThreshold, overlap);
        if count.value >= threshold then
          Finished(s.(counter := counter, firstOffsets := offsets, reported := Some(offsets[hash])), overlap,
                   Some(Detection(RepeatedLine, count.value, threshold, overlap)))
        else
          Finished(s.(counter := counter, firstOffsets := offsets), overlap, None)
  }

  function AppendPending(pending: string, c: char): string {
    if c != '\r' && Bytes(pending) < MAX_PENDING_LINE_BYTES then pending + [c] else pending
  }

  /** How far a scan of some text got: the fields, the byte position, whether some line was in the
      input, the detection that stopped it, and the number of characters used. */
  datatype LineScan = LineScan(lines: Lines, position: U64, overlap: bool, fired: Option<Detection>, used: nat)

  function ScanNewline(r: LineScan, done: Finished): LineScan {
    var position := SatAdd64(r.position, CharBytes('\n'));
    LineScan(done.lines.(pending := "", pendingStart := position), position, r.overlap || done.overlap,
             done.fired, r.used + 1)
  }

  function ScanChar(setup: Setup, r: LineScan, c: char): LineScan {
    if c == '\n' then ScanNewline(r, FinishLine(setup, r.lines))
    else
      LineScan(r.lines.(pending := AppendPending(r.lines.pending, c)), SatAdd64(r.position, CharBytes(c)),
               r.overlap, None, r.used + 1)
  }

  /** Scanning `text` from the given fields and byte position; the first detection ends the scan. */
  function ScanLines(setup: Setup, s: Lines, start: U64, text: string): LineScan {
    if text == [] then LineScan(s, start, false, None, 0)
    else
      var r := ScanLines(setup, s, start, text[..|text| - 1]);
      if r.fired.Some? then r else ScanChar(setup, r, text[|text| - 1])
  }

  /** Continuing a scan on further text. */
  function Continue(setup: Setup, r: LineScan, text: string): LineScan {
    if r.fired.Some? then r
    else
      var more := ScanLines(setup, r.lines, r.position, text);
      more.(overlap := r.overlap || more.overlap, used := r.used + more.used)
  }

  /** Scanning is split anywhere: the second part continues the scan of the first. */
  lemma {:induction false} ScanConcat(setup: Setup, s: Lines, start: U64, a: string, b: string)
    ensures ScanLines(setup, s, start, a + b) == Continue(setup, ScanLines(setup, s, start, a), b)
    decreases |b|
  {
    if b == [] {
      assert a + b == a;
    } else {
      var b', c := b[..|b| - 1], b[|b| - 1];
      assert (a + b)[..|a + b| - 1] == a + b';
      ScanConcat(setup, s, start, a, b');
    }
  }

  /** The fragments of one channel, scanned one after the other until the first detection. */
  function ScanFragments(setup: Setup, s: Lines, start: U64, fragments: seq<string>): LineScan {
    if fragments == [] then LineScan(s, start, false, None, 0)
    else Continue(setup, ScanFragments(setup, s, start, fragments[..|fragments| - 1]), fragments[|fragments| - 1])
  }

  function Concat(fragments: seq<string>): string {
    if fragments == [] then "" else Concat(fragments[..|fragments| - 1]) + fragments[|fragments| - 1]
  }

  /** However the text is cut, the first detection and the fields at that point are the same. */
  lemma {:induction false} FragmentsAreOneText(setup: Setup, s: Lines, start: U64, fragments: seq<string>)
    ensures ScanFragments(setup, s, start, fragments) == ScanLines(setup, s, start, Concat(fragments))
  {
    if fragments != [] {
      var before, last := fragments[..|fragments| - 1], fragments[|fragments| - 1];
      FragmentsAreOneText(setup, s, start, before);
      ScanConcat(setup, s, start, Concat(before), last);
    }
  }

  lemma {:induction false} ScanPosition(setup: Setup, s: Lines, start: U64, text: string)
    ensures var r := ScanLines(setup, s, start, text);
            && r.used <= |text| && r.position == SatAdd64(start, Bytes(text[..r.used]))
            && (r.fired.None? ==> r.used == |text|)
            && (r.fired.Some? ==> 0 < r.used && text[r.used - 1] == '\n')
  {
    if text != [] {
      var before, c := text[..|text| - 1], text[|text| - 1];
      ScanPosition(setup, s, start, before);
      var r := ScanLines(setup, s, start, before);
      assert before[..r.used] == text[..r.used];
      if r.fired.None? {
        assert text == before + [c] == text[..|text|];
        BytesSnoc(before, c);
      }
    }
  }
}
