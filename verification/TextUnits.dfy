/** What is hashed as a line and as a token, told from the characters of the text. */
module TextUnits {
  import opened Utf8
  import opened LoopSetup
  import opened LineReports
  import opened TokenScanner
  import opened SuffixCycles

  // ---------------------------------------------------------------- lines

  /** The characters other than carriage returns. */
  function WithoutReturns(chars: string): string {
    if chars == [] then ""
    else
      var before, c := WithoutReturns(chars[..|chars| - 1]), chars[|chars| - 1];
      if c == '\r' then before else before + [c]
  }

  /** The beginning of a text: all of it, or as much as first takes `limit` bytes. */
  predicate CutAt(part: string, whole: string, limit: nat) {
    && part <= whole && (part == whole || Bytes(part) >= limit)
    && (part == "" || Bytes(part[..|part| - 1]) < limit)
  }

  /** A line is hashed without its carriage returns, up to the character that reaches 8192 bytes. */
  lemma {:induction false} LineText(chars: string)
    ensures CutAt(PendingOf(chars), WithoutReturns(chars), 8_192)
  {
    if chars != [] {
      var before, c := chars[..|chars| - 1], chars[|chars| - 1];
      LineText(before);
      var line, next := PendingOf(before), PendingOf(chars);
      if next != line {
        assert next[..|next| - 1] == line;
      }
    }
  }

  // ---------------------------------------------------------------- tokens

  predicate AllAlphanumeric(tables: TextTables, run: string) {
    forall i :: 0 <= i < |run| ==> tables.alphanumeric(run[i])
  }

  /** The first `n` characters of a run in lower case, where `n` is all of them or as many as first take 128 bytes. */
  predicate TokenAt(tables: TextTables, token: string, run: string, n: nat) {
    && n <= |run| && token == LowerAll(tables, run[..n]) && (n == |run| || Bytes(token) >= 128)
    && (n == 0 || Bytes(LowerAll(tables, run[..n - 1])) < 128)
  }

  ghost predicate TokenOf(tables: TextTables, token: string, run: string) {
    exists n: nat :: TokenAt(tables, token, run, n)
  }

  lemma GrowToken(tables: TextTables, token: string, run: string, c: char)
    requires TokenOf(tables, token, run)
    ensures TokenOf(tables, AppendToken(tables, token, c), run + [c])
  {
    var n: nat :| TokenAt(tables, token, run, n);
    var more := run + [c];
    if Bytes(token) < 128 {
      assert more[..|run| + 1] == more && more[..|run|] == run && run[..n] == run;
      assert TokenAt(tables, AppendToken(tables, token, c), more, |run| + 1);
    } else {
      assert more[..n] == run[..n];
      if n > 0 { assert more[..n - 1] == run[..n - 1]; }
      assert TokenAt(tables, token, more, n);
    }
  }

  /** After a character outside tokens, or at the start, a run of alphanumeric characters is the current token. */
  lemma {:induction false} RunIsCurrent(tables: TextTables, text: string, run: string)
    requires (text == "" || !tables.alphanumeric(text[|text| - 1])) && AllAlphanumeric(tables, run)
    ensures var w := WordsOf(tables, text + run); w.done == WordsOf(tables, text).done && TokenOf(tables, w.current, run)
    decreases |run|
  {
    if run == "" {
      assert text + run == text;
      assert TokenAt(tables, "", run, 0);
    } else {
      var before, c := run[..|run| - 1], run[|run| - 1];
      assert (text + run)[..|text + run| - 1] == text + before;
      assert run == before + [c];
      RunIsCurrent(tables, text, before);
      GrowToken(tables, WordsOf(tables, text + before).current, before, c);
    }
  }

  /** Each maximal run of alphanumeric characters gives one token, in lower case and up to the character that reaches
      128 bytes, unless nothing of it is left. */
  lemma RunsAreTokens(tables: TextTables, text: string, run: string, c: char)
    requires (text == "" || !tables.alphanumeric(text[|text| - 1])) && AllAlphanumeric(tables, run) && !tables.alphanumeric(c)
    ensures WordsOf(tables, text + run + [c]).current == ""
    ensures exists token: string ::
              && TokenOf(tables, token, run)
              && WordsOf(tables, text + run + [c]).done == WordsOf(tables, text).done + if token == "" then [] else [token]
  {
    RunIsCurrent(tables, text, run);
    var all := text + run + [c];
    assert all[..|all| - 1] == text + run;
    var token := WordsOf(tables, text + run).current;
    assert TokenOf(tables, token, run);
  }
}
