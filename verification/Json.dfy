/** JSON values and the text the canonical writers produce for them. */
module Json {
  /** A JSON value.  A number is represented by its printed text, an object by its entries in
      the order the map iterates over them. */
  datatype Value =
    | Null
    | Bool(truth: bool)
    | Number(digits: string)
    | String(text: string)
    | Array(items: seq<Value>)
    | Object(entries: seq<Entry>)

  datatype Entry = Entry(key: string, value: Value)

  predicate NumberChar(c: char) {
    '0' <= c <= '9' || c in "+-.eE"
  }

  predicate NumberText(s: string) {
    s != [] && (s[0] == '-' || '0' <= s[0] <= '9') && forall i :: 0 <= i < |s| ==> NumberChar(s[i])
  }

  ghost predicate DistinctKeys(es: seq<Entry>) {
    forall i, j :: 0 <= i < j < |es| ==> es[i].key != es[j].key
  }

  /** What the map type guarantees (distinct keys) and what the number printer produces. */
  ghost predicate WellFormed(v: Value) {
    match v
    case Number(d) => NumberText(d)
    case Array(items) => forall i :: 0 <= i < |items| ==> WellFormed(items[i])
    case Object(es) => DistinctKeys(es) && forall i :: 0 <= i < |es| ==> WellFormed(es[i].value)
    case _ => true
  }

  // ---------------------------------------------------------------- strings (RFC 8259, section 7)

  function HexDigit(n: nat): char
    requires n < 16
  {
    if n < 10 then '0' + n as char else 'a' + (n - 10) as char
  }

  /** The printed form of one character inside a quoted string. */
  function EscapeChar(c: char): string {
    if c == '"' then "\\\""
    else if c == '\\' then "\\\\"
    else if c == 8 as char then "\\b"
    else if c == 12 as char then "\\f"
    else if c == '\n' then "\\n"
    else if c == '\r' then "\\r"
    else if c == '\t' then "\\t"
    else if c < ' ' then "\\u00" + [HexDigit(c as nat / 16), HexDigit(c as nat % 16)]
    else [c]
  }

  /** The printed characters of `s`, followed by `rest`. */
  function EscapeOnto(s: string, rest: string): string {
    if s == [] then rest else EscapeChar(s[0]) + EscapeOnto(s[1..], rest)
  }

  function QuoteOnto(s: string, rest: string): string {
    ['"'] + EscapeOnto(s, ['"'] + rest)
  }

  function Quote(s: string): string {
    QuoteOnto(s, "")
  }

  // ---------------------------------------------------------------- text of a value, in entry order

  /** The text of `v`, objects in the order of their entries, followed by `rest`. */
  function EmitOnto(v: Value, rest: string): string
    decreases v
  {
    match v
    case Null => "null" + rest
    case Bool(b) => (if b then "true" else "false") + rest
    case Number(d) => d + rest
    case String(s) => QuoteOnto(s, rest)
    case Array(items) => ['['] + EmitItemsOnto(items, true, [']'] + rest)
    case Object(es) => ['{'] + EmitEntriesOnto(es, true, ['}'] + rest)
  }

  function EmitItemsOnto(items: seq<Value>, first: bool, rest: string): string
    decreases items
  {
    if items == [] then rest
    else
      var text := EmitOnto(items[0], EmitItemsOnto(items[1..], false, rest));
      if first then text else [','] + text
  }

  function EmitEntryOnto(e: Entry, rest: string): string
    decreases e
  {
    QuoteOnto(e.key, [':'] + EmitOnto(e.value, rest))
  }

  function EmitEntriesOnto(es: seq<Entry>, first: bool, rest: string): string
    decreases es
  {
    if es == [] then rest
    else
      var text := EmitEntryOnto(es[0], EmitEntriesOnto(es[1..], false, rest));
      if first then text else [','] + text
  }

  function Emit(v: Value): string {
    EmitOnto(v, "")
  }

  // ---------------------------------------------------------------- unique readability

  /** What may follow a value inside a larger text: nothing, or a closing or separating mark. */
  predicate Delimited(r: string) {
    r == [] || r[0] in ",]}"
  }

  lemma Cancel(t: string, r: string, s: string)
    requires t + r == t + s
    ensures r == s
  {
    assert r == (t + r)[|t|..] && s == (t + s)[|t|..];
  }

  lemma EscapeCharCancel(c: char, d: char, r: string, s: string)
    requires EscapeChar(c) + r == EscapeChar(d) + s
    ensures c == d && r == s
  {
    var x, y := EscapeChar(c), EscapeChar(d);
    assert (x + r)[0] == (y + s)[0];
    if |x| > 1 {
      assert (x + r)[1] == (y + s)[1];
      if x[1] == 'u' {
        assert (x + r)[4] == (y + s)[4] && (x + r)[5] == (y + s)[5];
        assert c as nat == d as nat;
      }
    }
    assert c == d;
    Cancel(x, r, s);
  }

  lemma EscapeCharHead(c: char)
    ensures EscapeChar(c) != [] && EscapeChar(c)[0] != '"'
  {
  }

  lemma {:induction false} EscapeCancel(a: string, b: string, r: string, s: string)
    requires EscapeOnto(a, ['"'] + r) == EscapeOnto(b, ['"'] + s)
    ensures a == b && r == s
    decreases |a|
  {
    if a != [] { EscapeCharHead(a[0]); }
    if b != [] { EscapeCharHead(b[0]); }
    if a == [] || b == [] {
      assert EscapeOnto(a, ['"'] + r)[0] == EscapeOnto(b, ['"'] + s)[0];
      Cancel(['"'], r, s);
    } else {
      EscapeCharCancel(a[0], b[0], EscapeOnto(a[1..], ['"'] + r), EscapeOnto(b[1..], ['"'] + s));
      EscapeCancel(a[1..], b[1..], r, s);
      assert a == [a[0]] + a[1..] && b == [b[0]] + b[1..];
    }
  }

  lemma QuoteCancel(a: string, b: string, r: string, s: string)
    requires QuoteOnto(a, r) == QuoteOnto(b, s)
    ensures a == b && r == s
  {
    Cancel(['"'], EscapeOnto(a, ['"'] + r), EscapeOnto(b, ['"'] + s));
    EscapeCancel(a, b, r, s);
  }

  lemma NumberCancel(a: string, b: string, r: string, s: string)
    requires NumberText(a) && NumberText(b) && Delimited(r) && Delimited(s)
    requires a + r == b + s
    ensures a == b && r == s
  {
    assert forall i :: 0 <= i < |a| ==> (a + r)[i] == a[i];
    assert forall i :: 0 <= i < |b| ==> (b + s)[i] == b[i];
    assert r != [] ==> (a + r)[|a|] == r[0];
    assert s != [] ==> (b + s)[|b|] == s[0];
    assert |a| == |b|;
    assert a == (a + r)[..|a|] == b;
    Cancel(a, r, s);
  }

  /** The first character tells the kind of value, and is never a delimiter. */
  lemma EmitHead(v: Value, rest: string)
    requires WellFormed(v)
    ensures var t := EmitOnto(v, rest);
            t != [] && t[0] !in ",]}" &&
            match v
            case Null => t[0] == 'n'
            case Bool(b) => t[0] == if b then 't' else 'f'
            case Number(_) => t[0] == '-' || '0' <= t[0] <= '9'
            case String(_) => t[0] == '"'
            case Array(_) => t[0] == '['
            case Object(_) => t[0] == '{'
  {
  }

  /** A value's text determines the value and where it ends. */
  lemma {:induction false} EmitCancel(v: Value, w: Value, r: string, s: string)
    requires WellFormed(v) && WellFormed(w) && Delimited(r) && Delimited(s)
    requires EmitOnto(v, r) == EmitOnto(w, s)
    ensures v == w && r == s
    decreases v
  {
    EmitHead(v, r);
    EmitHead(w, s);
    match v
    case Null => Cancel("null", r, s);
    case Bool(b) => Cancel(if b then "true" else "false", r, s);
    case Number(d) => NumberCancel(d, w.digits, r, s);
    case String(t) => QuoteCancel(t, w.text, r, s);
    case Array(xs) =>
      Cancel(['['], EmitItemsOnto(xs, true, [']'] + r), EmitItemsOnto(w.items, true, [']'] + s));
      ItemsCancel(xs, w.items, true, r, s);
    case Object(es) =>
      Cancel(['{'], EmitEntriesOnto(es, true, ['}'] + r), EmitEntriesOnto(w.entries, true, ['}'] + s));
      EntriesCancel(es, w.entries, true, r, s);
  }

  lemma {:induction false} ItemsCancel(xs: seq<Value>, ys: seq<Value>, first: bool, r: string, s: string)
    requires WellFormed(Array(xs)) && WellFormed(Array(ys))
    requires EmitItemsOnto(xs, first, [']'] + r) == EmitItemsOnto(ys, first, [']'] + s)
    ensures xs == ys && r == s
    decreases xs
  {
    var mx, my := [']'] + r, [']'] + s;
    if xs != [] {
      mx := EmitItemsOnto(xs[1..], false, mx);
      EmitHead(xs[0], mx);
    }
    if ys != [] {
      my := EmitItemsOnto(ys[1..], false, my);
      EmitHead(ys[0], my);
    }
    if xs == [] || ys == [] {
      assert EmitItemsOnto(xs, first, [']'] + r)[0] == EmitItemsOnto(ys, first, [']'] + s)[0];
      Cancel([']'], r, s);
    } else {
      if !first { Cancel([','], EmitOnto(xs[0], mx), EmitOnto(ys[0], my)); }
      EmitCancel(xs[0], ys[0], mx, my);
      ItemsCancel(xs[1..], ys[1..], false, r, s);
      assert xs == [xs[0]] + xs[1..] && ys == [ys[0]] + ys[1..];
    }
  }

  lemma {:induction false} EntryCancel(e: Entry, f: Entry, r: string, s: string)
    requires WellFormed(e.value) && WellFormed(f.value) && Delimited(r) && Delimited(s)
    requires EmitEntryOnto(e, r) == EmitEntryOnto(f, s)
    ensures e == f && r == s
    decreases e
  {
    QuoteCancel(e.key, f.key, [':'] + EmitOnto(e.value, r), [':'] + EmitOnto(f.value, s));
    Cancel([':'], EmitOnto(e.value, r), EmitOnto(f.value, s));
    EmitCancel(e.value, f.value, r, s);
  }

  ghost predicate EntriesWellFormed(es: seq<Entry>) {
    forall i :: 0 <= i < |es| ==> WellFormed(es[i].value)
  }

  lemma {:induction false} EntriesCancel(es: seq<Entry>, fs: seq<Entry>, first: bool, r: string, s: string)
    requires EntriesWellFormed(es) && EntriesWellFormed(fs)
    requires EmitEntriesOnto(es, first, ['}'] + r) == EmitEntriesOnto(fs, first, ['}'] + s)
    ensures es == fs && r == s
    decreases es
  {
    if es == [] || fs == [] {
      assert EmitEntriesOnto(es, first, ['}'] + r)[0] == EmitEntriesOnto(fs, first, ['}'] + s)[0];
      Cancel(['}'], r, s);
    } else {
      var me, mf := EmitEntriesOnto(es[1..], false, ['}'] + r), EmitEntriesOnto(fs[1..], false, ['}'] + s);
      if !first { Cancel([','], EmitEntryOnto(es[0], me), EmitEntryOnto(fs[0], mf)); }
      EntryCancel(es[0], fs[0], me, mf);
      EntriesCancel(es[1..], fs[1..], false, r, s);
      assert es == [es[0]] + es[1..] && fs == [fs[0]] + fs[1..];
    }
  }

  // ---------------------------------------------------------------- appending

  lemma {:induction false} EscapeAppends(s: string, rest: string, more: string)
    ensures EscapeOnto(s, rest) + more == EscapeOnto(s, rest + more)
  {
    if s != [] {
      EscapeAppends(s[1..], rest, more);
      Reassociate(EscapeChar(s[0]), EscapeOnto(s[1..], rest), more);
    }
  }

  lemma Reassociate(a: string, b: string, c: string)
    ensures a + b + c == a + (b + c)
  {
  }

  lemma QuoteAppends(s: string, rest: string, more: string)
    ensures QuoteOnto(s, rest) + more == QuoteOnto(s, rest + more)
  {
    EscapeAppends(s, ['"'] + rest, more);
    Reassociate(['"'], EscapeOnto(s, ['"'] + rest), more);
    Reassociate(['"'], rest, more);
  }

  /** Writing a value and then `more` is writing the value onto `more`. */
  lemma {:induction false} EmitAppends(v: Value, rest: string, more: string)
    ensures EmitOnto(v, rest) + more == EmitOnto(v, rest + more)
    decreases v
  {
    match v
    case Null => Reassociate("null", rest, more);
    case Bool(b) => Reassociate(if b then "true" else "false", rest, more);
    case Number(d) => Reassociate(d, rest, more);
    case String(s) => QuoteAppends(s, rest, more);
    case Array(items) =>
      ItemsAppend(items, true, [']'] + rest, more);
      Reassociate(['['], EmitItemsOnto(items, true, [']'] + rest), more);
      Reassociate([']'], rest, more);
    case Object(es) =>
      EntriesAppend(es, true, ['}'] + rest, more);
      Reassociate(['{'], EmitEntriesOnto(es, true, ['}'] + rest), more);
      Reassociate(['}'], rest, more);
  }

  lemma {:induction false} ItemsAppend(items: seq<Value>, first: bool, rest: string, more: string)
    ensures EmitItemsOnto(items, first, rest) + more == EmitItemsOnto(items, first, rest + more)
    decreases items
  {
    if items != [] {
      var tail := EmitItemsOnto(items[1..], false, rest);
      ItemsAppend(items[1..], false, rest, more);
      EmitAppends(items[0], tail, more);
      Reassociate([','], EmitOnto(items[0], tail), more);
    }
  }

  lemma {:induction false} EntryAppends(e: Entry, rest: string, more: string)
    ensures EmitEntryOnto(e, rest) + more == EmitEntryOnto(e, rest + more)
    decreases e
  {
    EmitAppends(e.value, rest, more);
    QuoteAppends(e.key, [':'] + EmitOnto(e.value, rest), more);
    Reassociate([':'], EmitOnto(e.value, rest), more);
  }

  lemma {:induction false} EntriesAppend(es: seq<Entry>, first: bool, rest: string, more: string)
    ensures EmitEntriesOnto(es, first, rest) + more == EmitEntriesOnto(es, first, rest + more)
    decreases es
  {
    if es != [] {
      var tail := EmitEntriesOnto(es[1..], false, rest);
      EntriesAppend(es[1..], false, rest, more);
      EntryAppends(es[0], tail, more);
      Reassociate([','], EmitEntryOnto(es[0], tail), more);
    }
  }
}
