/** Finding the first balanced JSON object in a model's reply. */
module Extraction {
  import opened Wrappers
  import opened Json
  import opened CanonicalJson

  /** The scanner's variables. */
  datatype Scan = Scan(depth: int, inString: bool, escape: bool)

  /** The effect of one character on the scanner's variables. */
  function Step(s: Scan, c: char): Scan {
    if s.inString then
      if s.escape then s.(escape := false)
      else if c == '\\' then s.(escape := true)
      else if c == '"' then s.(inString := false)
      else s
    else if c == '"' then s.(inString := true)
    else if c == '{' then s.(depth := s.depth + 1)
    else if c == '}' then s.(depth := s.depth - 1)
    else s
  }

  function ScanAll(s: Scan, text: string): Scan
    decreases |text|
  {
    if text == [] then s else ScanAll(Step(s, text[0]), text[1..])
  }

  const Outside := Scan(0, false, false)

  /** Every brace outside a string is matched. */
  predicate Balanced(text: string) {
    ScanAll(Outside, text).depth == 0
  }

  /** The shortest balanced non-empty prefix of `text` is its first `n` characters. */
  ghost predicate ShortestBalanced(text: string, n: nat) {
    0 < n <= |text| && Balanced(text[..n]) && forall k :: 0 < k < n ==> !Balanced(text[..k])
  }

  ghost predicate FirstBrace(raw: string, start: nat) {
    start < |raw| && raw[start] == '{' && forall i :: 0 <= i < start ==> raw[i] != '{'
  }

  /** The object found in `raw` starts at its first brace and takes `n` characters. */
  ghost predicate FoundAt(raw: string, start: nat, n: nat) {
    FirstBrace(raw, start) && ShortestBalanced(raw[start..], n)
  }

  /** What there is to find in `raw`. */
  ghost function Extraction(raw: string): Option<string> {
    if exists start: nat, n: nat :: FoundAt(raw, start, n) then
      var start: nat, n: nat :| FoundAt(raw, start, n);
      Some(raw[start..][..n])
    else
      None
  }

  lemma FoundIsExtraction(raw: string, start: nat, n: nat)
    requires FoundAt(raw, start, n)
    ensures Extraction(raw) == Some(raw[start..][..n])
  {
    forall s: nat, m: nat | FoundAt(raw, s, m) ensures s == start && m == n {
      assert s == start;
    }
  }

  lemma {:induction false} ScanSnoc(s: Scan, text: string, c: char)
    ensures ScanAll(s, text + [c]) == Step(ScanAll(s, text), c)
    decreases |text|
  {
    if text != [] {
      assert (text + [c])[1..] == text[1..] + [c];
      ScanSnoc(Step(s, text[0]), text[1..], c);
    } else {
      assert text + [c] == [c];
      assert ScanAll(s, [c]) == ScanAll(Step(s, c), []);
    }
  }

  method FindBrace(raw: string) returns (start: Option<nat>)
    ensures start.None? ==> '{' !in raw
    ensures start.Some? ==> FirstBrace(raw, start.value)
  {
    for i := 0 to |raw|
      invariant forall k :: 0 <= k < i ==> raw[k] != '{'
    {
      if raw[i] == '{' {
        return Some(i);
      }
    }
    return None;
  }

  method ExtractFirstJsonObject(raw: string) returns (found: Option<string>)
    ensures found == Extraction(raw)
  {
    var first := FindBrace(raw);
    if first.None? {
      return None;
    }
    var start := first.value;
    var depth, inString, escape := 0, false, false;
    ghost var text := raw[start..];
    for idx := start to |raw|
      invariant Scan(depth, inString, escape) == ScanAll(Outside, text[..idx - start])
      invariant idx > start ==> 0 < depth
      invariant 0 <= depth <= idx - start
      invariant forall k :: 0 < k <= idx - start ==> !Balanced(text[..k])
    {
      var ch := raw[idx];
      ScanSnoc(Outside, text[..idx - start], ch);
      assert text[..idx - start] + [ch] == text[..idx - start + 1];
      if inString {
        if escape {
          escape := false;
        } else if ch == '\\' {
          escape := true;
        } else if ch == '"' {
          inString := false;
        }
      } else if ch == '"' {
        inString := true;
      } else if ch == '{' {
        depth := depth + 1;
      } else if ch == '}' {
        depth := depth - 1;
        if depth == 0 {
          FoundIsExtraction(raw, start, idx - start + 1);
          return Some(raw[start..][..idx - start + 1]);
        }
      }
    }
    NothingFound(raw, start);
    return None;
  }

  lemma NothingFound(raw: string, start: nat)
    requires FirstBrace(raw, start)
    requires forall k :: 0 < k <= |raw[start..]| ==> !Balanced(raw[start..][..k])
    ensures Extraction(raw).None?
  {
    forall s: nat, m: nat ensures !FoundAt(raw, s, m) {
      assert FirstBrace(raw, s) ==> s == start;
    }
  }

  // ---------------------------------------------------------------- scanning printed values

  /** Scanning from `s` over the part of `text` before its suffix `rest` ends in `t`, and the
      depth is at least `floor` after every character on the way. */
  ghost predicate Passes(s: Scan, text: string, t: Scan, rest: string, floor: int)
    decreases |text|
  {
    || (text == rest && s == t)
    || (text != [] && Step(s, text[0]).depth >= floor && Passes(Step(s, text[0]), text[1..], t, rest, floor))
  }

  lemma {:induction false} PassesChain(s: Scan, a: string, t: Scan, b: string, u: Scan, c: string, floor: int)
    requires Passes(s, a, t, b, floor) && Passes(t, b, u, c, floor)
    ensures Passes(s, a, u, c, floor)
    decreases |a|
  {
    if !(a == b && s == t) {
      PassesChain(Step(s, a[0]), a[1..], t, b, u, c, floor);
    }
  }

  /** Characters that the scanner ignores outside strings. */
  lemma {:induction false} PlainPasses(t: string, d: int, rest: string, floor: int)
    requires floor <= d && forall i :: 0 <= i < |t| ==> t[i] !in "\"{}"
    ensures Passes(Scan(d, false, false), t + rest, Scan(d, false, false), rest, floor)
    decreases |t|
  {
    if t == [] {
      assert t + rest == rest;
    } else {
      assert (t + rest)[1..] == t[1..] + rest;
      PlainPasses(t[1..], d, rest, floor);
    }
  }

  /** Characters that the scanner ignores inside strings. */
  lemma {:induction false} InsidePasses(t: string, d: int, rest: string, floor: int)
    requires floor <= d && forall i :: 0 <= i < |t| ==> t[i] !in "\"\\"
    ensures var s := Scan(d, true, false); Passes(s, t + rest, s, rest, floor)
    decreases |t|
  {
    if t == [] {
      assert t + rest == rest;
    } else {
      assert (t + rest)[1..] == t[1..] + rest;
      InsidePasses(t[1..], d, rest, floor);
    }
  }

  /** Each printed character leaves the scanner inside the string, at the same depth. */
  lemma CharPasses(c: char, d: int, rest: string, floor: int)
    requires floor <= d
    ensures var s := Scan(d, true, false); Passes(s, EscapeChar(c) + rest, s, rest, floor)
  {
    var s, x := Scan(d, true, false), EscapeChar(c);
    if |x| == 1 {
      InsidePasses(x, d, rest, floor);
    } else {
      var t := x + rest;
      assert t[1..][1..] == t[2..] == x[2..] + rest;
      assert Step(Step(s, t[0]), t[1]) == s;
      InsidePasses(x[2..], d, rest, floor);
      assert Passes(Step(s, t[0]), t[1..], s, rest, floor);
    }
  }

  lemma {:induction false} EscapePasses(text: string, d: int, rest: string, floor: int)
    requires floor <= d
    ensures var s := Scan(d, true, false); Passes(s, EscapeOnto(text, rest), s, rest, floor)
    decreases |text|
  {
    if text != [] {
      var s, more := Scan(d, true, false), EscapeOnto(text[1..], rest);
      CharPasses(text[0], d, more, floor);
      EscapePasses(text[1..], d, rest, floor);
      PassesChain(s, EscapeOnto(text, rest), s, more, s, rest, floor);
    }
  }

  lemma QuotePasses(text: string, d: int, rest: string, floor: int)
    requires floor <= d
    ensures var s := Scan(d, false, false); Passes(s, QuoteOnto(text, rest), s, rest, floor)
  {
    var inside := Scan(d, true, false);
    EscapePasses(text, d, ['"'] + rest, floor);
    assert (['"'] + rest)[1..] == rest;
    assert Passes(inside, ['"'] + rest, Scan(d, false, false), rest, floor);
    PassesChain(inside, EscapeOnto(text, ['"'] + rest), inside, ['"'] + rest, Scan(d, false, false), rest, floor);
    assert QuoteOnto(text, rest)[1..] == EscapeOnto(text, ['"'] + rest);
  }

  /** A printed value returns the scanner to the depth it found, never going below it. */
  lemma {:induction false} EmitPasses(v: Value, d: int, rest: string, floor: int)
    requires WellFormed(v) && floor <= d
    ensures var s := Scan(d, false, false); Passes(s, EmitOnto(v, rest), s, rest, floor)
    decreases v
  {
    match v
    case Null => PlainPasses("null", d, rest, floor);
    case Bool(b) => PlainPasses(if b then "true" else "false", d, rest, floor);
    case Number(digits) => PlainPasses(digits, d, rest, floor);
    case String(t) => QuotePasses(t, d, rest, floor);
    case Array(items) =>
      var s, inner := Scan(d, false, false), EmitItemsOnto(items, true, [']'] + rest);
      ItemsPass(items, true, d, [']'] + rest, floor);
      PlainPasses("]", d, rest, floor);
      PassesChain(s, inner, s, [']'] + rest, s, rest, floor);
      assert (['['] + inner)[1..] == inner;
    case Object(es) =>
      var s, t, inner := Scan(d, false, false), Scan(d + 1, false, false), EmitEntriesOnto(es, true, ['}'] + rest);
      EntriesPass(es, true, d + 1, ['}'] + rest, floor);
      assert (['}'] + rest)[1..] == rest;
      assert Passes(t, ['}'] + rest, s, rest, floor);
      PassesChain(t, inner, t, ['}'] + rest, s, rest, floor);
      assert (['{'] + inner)[1..] == inner;
  }

  lemma {:induction false} ItemsPass(items: seq<Value>, first: bool, d: int, rest: string, floor: int)
    requires WellFormed(Array(items)) && floor <= d
    ensures var s := Scan(d, false, false); Passes(s, EmitItemsOnto(items, first, rest), s, rest, floor)
    decreases items
  {
    if items != [] {
      var s, more := Scan(d, false, false), EmitItemsOnto(items[1..], false, rest);
      EmitPasses(items[0], d, more, floor);
      ItemsPass(items[1..], false, d, rest, floor);
      var text := EmitOnto(items[0], more);
      PassesChain(s, text, s, more, s, rest, floor);
      assert ([','] + text)[1..] == text;
    }
  }

  lemma {:induction false} EntriesPass(es: seq<Entry>, first: bool, d: int, rest: string, floor: int)
    requires EntriesWellFormed(es) && floor <= d
    ensures var s := Scan(d, false, false); Passes(s, EmitEntriesOnto(es, first, rest), s, rest, floor)
    decreases es
  {
    if es != [] {
      var s, more := Scan(d, false, false), EmitEntriesOnto(es[1..], false, rest);
      EntryPasses(es[0], d, more, floor);
      EntriesPass(es[1..], false, d, rest, floor);
      var text := EmitEntryOnto(es[0], more);
      PassesChain(s, text, s, more, s, rest, floor);
      assert ([','] + text)[1..] == text;
    }
  }

  lemma {:induction false} EntryPasses(e: Entry, d: int, rest: string, floor: int)
    requires WellFormed(e.value) && floor <= d
    ensures var s := Scan(d, false, false); Passes(s, EmitEntryOnto(e, rest), s, rest, floor)
    decreases e
  {
    var s, value := Scan(d, false, false), EmitOnto(e.value, rest);
    QuotePasses(e.key, d, [':'] + value, floor);
    EmitPasses(e.value, d, rest, floor);
    assert ([':'] + value)[1..] == value;
    PassesChain(s, EmitEntryOnto(e, rest), s, [':'] + value, s, rest, floor);
  }

  /** A pass with positive floor, then one closing brace, is the shortest balanced prefix. */
  lemma {:induction false} PassesPrefix(s: Scan, text: string, t: Scan, rest: string, floor: int, k: nat)
    requires Passes(s, text, t, rest, floor)
    requires k <= |text| - |rest|
    ensures k == |text| - |rest| ==> ScanAll(s, text[..k]) == t && text[k..] == rest
    ensures 0 < k ==> ScanAll(s, text[..k]).depth >= floor
    decreases |text|
  {
    PassesLength(s, text, t, rest, floor);
    if text != rest || s != t {
      if 0 < k {
        assert text[..k][1..] == text[1..][..k - 1];
        PassesPrefix(Step(s, text[0]), text[1..], t, rest, floor, k - 1);
      }
    }
  }

  lemma {:induction false} PassesLength(s: Scan, text: string, t: Scan, rest: string, floor: int)
    requires Passes(s, text, t, rest, floor)
    ensures |rest| <= |text|
    ensures |rest| == |text| ==> text == rest && s == t
    decreases |text|
  {
    if !(text == rest && s == t) {
      PassesLength(Step(s, text[0]), text[1..], t, rest, floor);
    }
  }

  lemma OpenBrace(inner: string, k: nat)
    requires 0 < k <= 1 + |inner|
    ensures ScanAll(Outside, (['{'] + inner)[..k]) == ScanAll(Scan(1, false, false), inner[..k - 1])
  {
    assert (['{'] + inner)[..k][1..] == inner[..k - 1];
  }

  lemma CloseBrace(inner: string, suffix: string, m: nat)
    requires m + 1 + |suffix| == |inner|
    requires inner[m..] == ['}'] + suffix && ScanAll(Scan(1, false, false), inner[..m]) == Scan(1, false, false)
    ensures ScanAll(Scan(1, false, false), inner[..m + 1]) == Outside
  {
    assert inner[m] == inner[m..][0] == '}';
    assert inner[..m] + ['}'] == inner[..m + 1];
    ScanSnoc(Scan(1, false, false), inner[..m], '}');
  }

  lemma ClosedPass(inner: string, suffix: string)
    requires Passes(Scan(1, false, false), inner, Scan(1, false, false), ['}'] + suffix, 1)
    ensures |suffix| < |inner| && ShortestBalanced(['{'] + inner, 1 + |inner| - |suffix|)
  {
    var one, n := Scan(1, false, false), 1 + |inner| - |suffix|;
    PassesLength(one, inner, one, ['}'] + suffix, 1);
    forall k | 0 < k < n ensures !Balanced((['{'] + inner)[..k]) {
      PassesPrefix(one, inner, one, ['}'] + suffix, 1, k - 1);
      OpenBrace(inner, k);
    }
    PassesPrefix(one, inner, one, ['}'] + suffix, 1, n - 2);
    CloseBrace(inner, suffix, n - 2);
    OpenBrace(inner, n);
  }

  /** Whatever braces, quotes or escapes its strings hold, a printed object is found exactly,
      behind any prefix without an opening brace and before any suffix. */
  lemma PrintedObjectIsExtracted(v: Value, prefix: string, suffix: string)
    requires WellFormed(v) && v.Object? && '{' !in prefix
    ensures Extraction(prefix + Emit(v) + suffix) == Some(Emit(v))
  {
    var raw, n := prefix + Emit(v) + suffix, |Emit(v)|;
    var inner := EmitEntriesOnto(v.entries, true, ['}'] + suffix);
    EntriesPass(v.entries, true, 1, ['}'] + suffix, 1);
    ClosedPass(inner, suffix);
    EmitAppends(v, "", suffix);
    assert "" + suffix == suffix;
    var text := Emit(v) + suffix;
    assert text == ['{'] + inner && n == 1 + |inner| - |suffix|;
    Reassociate(prefix, Emit(v), suffix);
    assert raw[|prefix|..] == text && text[..n] == Emit(v);
    FoundIsExtraction(raw, |prefix|, n);
  }

  /** The canonical text is a printed object too. */
  lemma CanonicalObjectIsExtracted(v: Value, prefix: string, suffix: string)
    requires WellFormed(v) && v.Object? && '{' !in prefix
    ensures Extraction(prefix + CanonicalText(v) + suffix) == Some(CanonicalText(v))
  {
    CanonWellFormed(v);
    PrintedObjectIsExtracted(Canon(v), prefix, suffix);
  }
}
