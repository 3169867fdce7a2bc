/** The canonical writer for tool-call arguments: every string value is normalised so that
    calls differing only in paths, ranges or outer white space share one fingerprint. */
module ToolJson {
  import opened Wrappers
  import opened StringOrder
  import opened Json
  import opened CanonicalJson
  import opened Whitespace
  import Decimal

  /** Digits and range separators only, with at least one of each. */
  predicate IsLineRange(s: string) {
    && (forall i :: 0 <= i < |s| ==> Decimal.IsDigit(s[i]) || s[i] in "-:,L")
    && (exists i :: 0 <= i < |s| && Decimal.IsDigit(s[i]))
    && (exists i :: 0 <= i < |s| && s[i] in "-:,L")
  }

  predicate IsPath(s: string) {
    && ("/" <= s || "./" <= s || "../" <= s || "~" <= s || '\\' in s)
    && ' ' !in s
  }

  /** The normalised form of one string value. */
  function NormalizeString(s: string): string {
    var trimmed := Trim(s);
    if trimmed == "" then ""
    else if IsPath(trimmed) then "<path>"
    else if IsLineRange(trimmed) then "<range>"
    else trimmed
  }

  function NormalizeEntries(es: seq<Entry>): seq<Entry>
    decreases es
  {
    seq(|es|, i requires 0 <= i < |es| => Entry(es[i].key, Normalize(es[i].value)))
  }

  /** The value with every string value, at any depth, normalised; keys are kept. */
  function Normalize(v: Value): Value
    decreases v
  {
    match v
    case String(s) => String(NormalizeString(s))
    case Array(items) => Array(seq(|items|, i requires 0 <= i < |items| => Normalize(items[i])))
    case Object(es) => Object(NormalizeEntries(es))
    case _ => v
  }

  lemma NormalizeStringIdempotent(s: string)
    ensures NormalizeString(NormalizeString(s)) == NormalizeString(s)
  {
    TrimTrims(s);
    var n := NormalizeString(s);
    TrimTrims(n);
    assert n == Trim(n);
    assert n == "<path>" || n == "<range>" ==> n[0] == '<' && !IsLineRange(n);
  }

  // ---------------------------------------------------------------- normal forms

  ghost predicate Continues(p: string, t: string) {
    exists rest :: t == p + rest
  }

  ghost predicate Around(a: string, p: string, b: string, t: string) {
    t == a + p + b
  }

  /** `t` is `s` without the white space around it. */
  ghost predicate Core(s: string, t: string) {
    && Trimmed(t)
    && exists a, b :: Around(a, t, b, s) && Blank(a) && Blank(b)
  }

  /** A path: without spaces, and either rooted, relative to a directory, or with a backslash. */
  ghost predicate PathForm(t: string) {
    && ' ' !in t
    && (Continues("/", t) || Continues("./", t) || Continues("../", t) || Continues("~", t) || exists a, b :: Around(a, "\\", b, t))
  }

  /** A range: digits and at least one of the marks `-`, `:`, `,` and `L`. */
  ghost predicate RangeForm(t: string) {
    && (forall i :: 0 <= i < |t| ==> t[i] in "0123456789-:,L")
    && (exists i :: 0 <= i < |t| && t[i] in "0123456789")
    && (exists i :: 0 <= i < |t| && t[i] in "-:,L")
  }

  lemma PrefixForm(p: string, t: string)
    ensures p <= t <==> Continues(p, t)
  {
    if p <= t { assert t == p + t[|p|..]; }
  }

  lemma BackslashForm(t: string)
    ensures '\\' in t <==> exists a, b :: Around(a, "\\", b, t)
  {
    if '\\' in t {
      var i :| 0 <= i < |t| && t[i] == '\\';
      assert Around(t[..i], "\\", t[i + 1..], t);
    }
  }

  lemma PathFormExactly(t: string)
    ensures IsPath(t) <==> PathForm(t)
  {
    PrefixForm("/", t);
    PrefixForm("./", t);
    PrefixForm("../", t);
    PrefixForm("~", t);
    BackslashForm(t);
  }

  lemma DigitExactly(c: char)
    ensures Decimal.IsDigit(c) <==> c in "0123456789"
  {
  }

  lemma RangeFormExactly(t: string)
    ensures IsLineRange(t) <==> RangeForm(t)
  {
    forall i | 0 <= i < |t| ensures Decimal.IsDigit(t[i]) <==> t[i] in "0123456789" { DigitExactly(t[i]); }
  }

  /** What every string is normalised to, by the string without the white space around it. */
  lemma NormalForms(s: string, t: string)
    requires Core(s, t)
    ensures t == "" ==> NormalizeString(s) == ""
    ensures t != "" && PathForm(t) ==> NormalizeString(s) == "<path>"
    ensures t != "" && !PathForm(t) && RangeForm(t) ==> NormalizeString(s) == "<range>"
    ensures !PathForm(t) && !RangeForm(t) ==> NormalizeString(s) == t
  {
    var a, b :| Around(a, t, b, s) && Blank(a) && Blank(b);
    TrimSkips(a, t, b);
    PathFormExactly(t);
    RangeFormExactly(t);
  }

  /** Every string has a core, and only one. */
  lemma CoreExists(s: string) returns (t: string)
    ensures Core(s, t) && forall u :: Core(s, u) ==> u == t
  {
    var a, b := TrimSplits(s);
    t := Trim(s);
    assert Around(a, t, b, s);
    forall u | Core(s, u) ensures u == t {
      var x, y :| Around(x, u, y, s) && Blank(x) && Blank(y);
      TrimSkips(x, u, y);
    }
  }

  /** White space around a string makes no difference. */
  lemma NormalizeIgnoresPadding(a: string, s: string, b: string)
    requires Blank(a) && Blank(b)
    ensures NormalizeString(a + s + b) == NormalizeString(s)
  {
    TrimPadded(a, s, b);
  }

  /** A path, or the text that stands for one. */
  ghost predicate ActsAsPath(t: string) {
    (t != "" && PathForm(t)) || t == "<path>"
  }

  ghost predicate ActsAsRange(t: string) {
    (t != "" && !PathForm(t) && RangeForm(t)) || t == "<range>"
  }

  lemma StandInsAreThemselves()
    ensures !PathForm("<path>") && !RangeForm("<path>") && !PathForm("<range>") && !RangeForm("<range>")
  {
    PathFormExactly("<path>");
    PathFormExactly("<range>");
    assert "<path>"[0] == '<' && "<range>"[0] == '<';
  }

  /** Two strings share a normal form exactly when both are blank, both are paths, both are ranges, or they are
      equal but for white space around them; the texts `<path>` and `<range>` count as a path and a range. */
  lemma SharedForms(s: string, t: string, x: string, y: string)
    requires Core(s, x) && Core(t, y)
    ensures NormalizeString(s) == NormalizeString(t) <==>
            (ActsAsPath(x) && ActsAsPath(y)) || (ActsAsRange(x) && ActsAsRange(y)) || x == y
  {
    NormalForms(s, x);
    NormalForms(t, y);
    StandInsAreThemselves();
  }

  /** The text that stands for paths is no path, and yet it shares the normal form of every path. */
  lemma StandInCollides()
    ensures !PathForm("<path>") && PathForm("/etc") && NormalizeString("<path>") == NormalizeString("/etc")
  {
    StandInsAreThemselves();
    PathFormExactly("/etc");
    assert Around("", "<path>", "", "<path>") && Around("", "/etc", "", "/etc");
    assert Core("<path>", "<path>") && Core("/etc", "/etc");
    NormalForms("<path>", "<path>");
    NormalForms("/etc", "/etc");
  }

  // ---------------------------------------------------------------- normalised values

  /** A step into a value: an item of an array, or a member of an object. */
  datatype Step = Item(index: nat) | Member(index: nat)

  /** What stands at the end of a path into a value. */
  function At(v: Value, path: seq<Step>): Option<Value> {
    if path == [] then Some(v)
    else match path[0]
         case Item(i) => if v.Array? && i < |v.items| then At(v.items[i], path[1..]) else None
         case Member(i) => if v.Object? && i < |v.entries| then At(v.entries[i].value, path[1..]) else None
  }

  /** The same but for the texts of strings, which are normalised. */
  ghost predicate NormalizedTo(v: Value, w: Value) {
    match v
    case String(s) => w == String(NormalizeString(s))
    case Array(items) => w.Array? && |w.items| == |items|
    case Object(es) => w.Object? && |w.entries| == |es| && forall i :: 0 <= i < |es| ==> w.entries[i].key == es[i].key
    case _ => w == v
  }

  /** Normalising a value normalises the strings at the end of all paths into it, and changes nothing else. */
  lemma {:induction false} NormalizedAt(v: Value, path: seq<Step>)
    ensures At(v, path).None? <==> At(Normalize(v), path).None?
    ensures At(v, path).Some? ==> NormalizedTo(At(v, path).value, At(Normalize(v), path).value)
    decreases |path|
  {
    if path != [] {
      match path[0]
      case Item(i) => if v.Array? && i < |v.items| { NormalizedAt(v.items[i], path[1..]); }
      case Member(i) => if v.Object? && i < |v.entries| { NormalizedAt(v.entries[i].value, path[1..]); }
    }
  }

  lemma {:induction false} NormalizeIdempotent(v: Value)
    ensures Normalize(Normalize(v)) == Normalize(v)
    decreases v
  {
    match v
    case String(s) => NormalizeStringIdempotent(s);
    case Array(items) =>
      forall i | 0 <= i < |items| ensures Normalize(Normalize(items[i])) == Normalize(items[i]) {
        NormalizeIdempotent(items[i]);
      }
    case Object(es) =>
      forall i | 0 <= i < |es| ensures Normalize(Normalize(es[i].value)) == Normalize(es[i].value) {
        NormalizeIdempotent(es[i].value);
      }
    case _ =>
  }

  lemma {:induction false} NormalizeWellFormed(v: Value)
    requires WellFormed(v)
    ensures WellFormed(Normalize(v))
    decreases v
  {
    match v
    case Array(items) =>
      forall i | 0 <= i < |items| ensures WellFormed(Normalize(items[i])) { NormalizeWellFormed(items[i]); }
    case Object(es) =>
      forall i | 0 <= i < |es| ensures WellFormed(Normalize(es[i].value)) { NormalizeWellFormed(es[i].value); }
    case _ =>
  }

  /** Two argument values share a tool text exactly when they agree, up to key order, after
      normalisation; normalising once more changes nothing. */
  lemma ToolTextIdentifies(v: Value, w: Value)
    requires WellFormed(v) && WellFormed(w)
    ensures CanonicalText(Normalize(v)) == CanonicalText(Normalize(w)) <==> Same(Normalize(v), Normalize(w))
    ensures CanonicalText(Normalize(Normalize(v))) == CanonicalText(Normalize(v))
  {
    NormalizeWellFormed(v);
    NormalizeWellFormed(w);
    CanonicalTextIdentifies(Normalize(v), Normalize(w));
    NormalizeIdempotent(v);
  }

  // ---------------------------------------------------------------- the writer

  lemma {:induction false} InsertNormalized(e: Entry, es: seq<Entry>)
    ensures Insert(Entry(e.key, Normalize(e.value)), NormalizeEntries(es)) == NormalizeEntries(Insert(e, es))
  {
    if es == [] || !Less(es[0].key, e.key) {
      NormalizeCons(e, es);
    } else {
      var normal := NormalizeEntries(es);
      assert normal[0] == Entry(es[0].key, Normalize(es[0].value)) && normal[1..] == NormalizeEntries(es[1..]);
      InsertNormalized(e, es[1..]);
      NormalizeCons(es[0], Insert(e, es[1..]));
    }
  }

  lemma NormalizeCons(e: Entry, es: seq<Entry>)
    ensures NormalizeEntries([e] + es) == [Entry(e.key, Normalize(e.value))] + NormalizeEntries(es)
  {
  }

  lemma {:induction false} SortNormalized(es: seq<Entry>)
    ensures Sort(NormalizeEntries(es)) == NormalizeEntries(Sort(es))
  {
    if es != [] {
      SortNormalized(es[1..]);
      assert NormalizeEntries(es)[1..] == NormalizeEntries(es[1..]);
      InsertNormalized(es[0], Sort(es[1..]));
    }
  }

  method WriteCanonicalToolJson(v: Value, output: string) returns (out: string)
    ensures out == output + CanonicalText(Normalize(v))
    decreases v
  {
    match v
    case Null => out := output + "null";
    case Bool(b) => out := output + if b then "true" else "false";
    case Number(d) => out := output + d;
    case String(s) => out := output + Quote(NormalizeString(s));
    case Array(items) => out := WriteToolArray(items, output);
    case Object(entries) => out := WriteToolObject(entries, output);
  }

  method WriteToolArray(items: seq<Value>, output: string) returns (out: string)
    ensures out == output + CanonicalText(Normalize(Array(items)))
    decreases items
  {
    ghost var normal := Normalize(Array(items)).items;
    ghost var canonical, target := Canon(Array(normal)).items, output + CanonicalText(Array(normal));
    out := output + ['['];
    ArrayOpens(normal, output);
    assert canonical[0..] == canonical;
    for index := 0 to |items|
      invariant out + EmitItemsOnto(canonical[index..], index == 0, "]") == target
    {
      ItemWritten(out, canonical, index);
      assert out + "" == out;
      if index > 0 {
        out := out + [','];
      }
      out := WriteCanonicalToolJson(items[index], out);
    }
    out := out + [']'];
  }

  /** The canonical entries of a normalised object are the sorted entries, each normalised and made canonical. */
  lemma ToolEntry(entries: seq<Entry>, index: nat)
    requires index < |entries|
    ensures var canonical, sorted := Canon(Object(NormalizeEntries(entries))).entries, Sort(entries);
            && |canonical| == |sorted| == |entries| && sorted[index] in entries
            && canonical[index] == Entry(sorted[index].key, Canon(Normalize(sorted[index].value)))
  {
    SortNormalized(entries);
    SortMembers(entries);
    CanonAt(NormalizeEntries(entries), index);
  }

  lemma ToolEntries(entries: seq<Entry>)
    ensures |Canon(Object(NormalizeEntries(entries))).entries| == |Sort(entries)| == |entries|
  {
    SortMembers(entries);
    SortMembers(NormalizeEntries(entries));
  }

  /** Writes the entries in the given order; `canonical` is their canonical form. */
  method WriteToolEntries(ghost entries: seq<Entry>, sorted: seq<Entry>, ghost canonical: seq<Entry>, output: string) returns (out: string)
    requires |canonical| == |sorted| && forall i :: 0 <= i < |sorted| ==> sorted[i] in entries
    requires forall i :: 0 <= i < |sorted| ==> canonical[i] == Entry(sorted[i].key, Canon(Normalize(sorted[i].value)))
    ensures out + ['}'] == output + EmitEntriesOnto(canonical, true, "}")
    decreases entries, 0
  {
    out := output;
    ghost var target := output + EmitEntriesOnto(canonical, true, "}");
    assert canonical[0..] == canonical;
    for index := 0 to |sorted|
      invariant out + EmitEntriesOnto(canonical[index..], index == 0, "}") == target
    {
      EntryWritten(out, canonical, index);
      assert out + "" == out;
      if index > 0 {
        out := out + [','];
      }
      out := out + Quote(sorted[index].key);
      out := out + [':'];
      assert sorted[index] in entries;
      out := WriteCanonicalToolJson(sorted[index].value, out);
    }
  }

  method WriteToolObject(entries: seq<Entry>, output: string) returns (out: string)
    ensures out == output + CanonicalText(Normalize(Object(entries)))
    decreases entries, 1
  {
    ToolEntries(entries);
    var sorted := Sort(entries);
    ghost var canonical := Canon(Object(NormalizeEntries(entries))).entries;
    forall i | 0 <= i < |sorted|
      ensures sorted[i] in entries && canonical[i] == Entry(sorted[i].key, Canon(Normalize(sorted[i].value)))
    {
      ToolEntry(entries, i);
    }
    ObjectOpens(NormalizeEntries(entries), output);
    out := output + ['{'];
    out := WriteToolEntries(entries, sorted, canonical, out);
    out := out + ['}'];
  }
}
