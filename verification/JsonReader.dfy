/** Reading JSON as RFC 8259 describes it, without white space between tokens: what the written texts mean. */
module JsonReader {
  import opened Wrappers
  import opened Json
  import opened CanonicalJson

  datatype Read<T> = Got(value: T, rest: string) | Wrong

  // ---------------------------------------------------------------- strings (section 7)

  function HexValue(c: char): Option<nat> {
    if '0' <= c <= '9' then Some(c as nat - '0' as nat)
    else if 'a' <= c <= 'f' then Some(c as nat - 'a' as nat + 10)
    else if 'A' <= c <= 'F' then Some(c as nat - 'A' as nat + 10)
    else None
  }

  /** The code unit of four hexadecimal digits. */
  function ReadUnit(s: string): Read<nat> {
    if |s| < 4 then Wrong
    else
      var a, b, c, d := HexValue(s[0]), HexValue(s[1]), HexValue(s[2]), HexValue(s[3]);
      if a.None? || b.None? || c.None? || d.None? then Wrong
      else Got(((a.value * 16 + b.value) * 16 + c.value) * 16 + d.value, s[4..])
  }

  /** The character of an escape with `u`: a code unit, or a surrogate pair of them. */
  function ReadCode(s: string): Read<char> {
    match ReadUnit(s)
    case Wrong => Wrong
    case Got(high, rest) =>
      if high < 0xD800 || 0xE000 <= high < 0x1_0000 then Got(high as char, rest)
      else if high < 0xDC00 && |rest| >= 2 && rest[0] == '\\' && rest[1] == 'u' then
        match ReadUnit(rest[2..])
        case Wrong => Wrong
        case Got(low, rest') =>
          if 0xDC00 <= low < 0xE000 then Got((0x1_0000 + (high - 0xD800) * 0x400 + (low - 0xDC00)) as char, rest') else Wrong
      else Wrong
  }

  /** What stands for itself after a backslash, or for a control character. */
  function ReadEscape(s: string): Read<char> {
    if s == "" then Wrong
    else match s[0]
         case '"' => Got('"', s[1..])
         case '\\' => Got('\\', s[1..])
         case '/' => Got('/', s[1..])
         case 'b' => Got(0x08 as char, s[1..])
         case 'f' => Got(0x0C as char, s[1..])
         case 'n' => Got(0x0A as char, s[1..])
         case 'r' => Got(0x0D as char, s[1..])
         case 't' => Got(0x09 as char, s[1..])
         case 'u' => ReadCode(s[1..])
         case _ => Wrong
  }

  /** One character of a string, unescaped ones being U+0020 and above. */
  function ReadChar(s: string): Read<char> {
    if s == "" || s[0] as nat < 0x20 || s[0] == '"' then Wrong
    else if s[0] == '\\' then ReadEscape(s[1..])
    else Got(s[0], s[1..])
  }

  lemma ReadCharShortens(s: string)
    ensures ReadChar(s).Got? ==> |ReadChar(s).rest| < |s|
  {
  }

  /** The characters up to the closing quotation mark. */
  function ReadChars(s: string): Read<string>
    decreases |s|
  {
    if s != "" && s[0] == '"' then Got("", s[1..])
    else
      ReadCharShortens(s);
      match ReadChar(s)
      case Wrong => Wrong
      case Got(c, rest) =>
        match ReadChars(rest)
        case Wrong => Wrong
        case Got(more, rest') => Got([c] + more, rest')
  }

  function ReadString(s: string): Read<string> {
    if s != "" && s[0] == '"' then ReadChars(s[1..]) else Wrong
  }

  lemma ReadEscapedControl(n: nat, rest: string)
    requires n < 0x20
    ensures ReadCode("00" + [HexDigit(n / 16), HexDigit(n % 16)] + rest) == Got(n as char, rest)
  {
    var s := "00" + [HexDigit(n / 16), HexDigit(n % 16)] + rest;
    assert s[0] == '0' && s[1] == '0' && s[2] == HexDigit(n / 16) && s[3] == HexDigit(n % 16) && s[4..] == rest;
    assert HexValue(s[2]) == Some(n / 16) && HexValue(s[3]) == Some(n % 16);
    assert ReadUnit(s) == Got(n, rest);
  }

  /** The printed form of a character is read as the character. */
  lemma ReadEscaped(c: char, rest: string)
    ensures EscapeChar(c) != "" && EscapeChar(c)[0] != '"'
    ensures ReadChar(EscapeChar(c) + rest) == Got(c, rest)
  {
    var s := EscapeChar(c) + rest;
    if c in "\"\\\n\r\t" || c == 8 as char || c == 12 as char {
      assert s[0] == '\\' && s[1..][0] == EscapeChar(c)[1] && s[1..][1..] == rest;
    } else if c < ' ' {
      var n := c as nat;
      assert s[0] == '\\' && s[1] == 'u' && s[1..][1..] == "00" + [HexDigit(n / 16), HexDigit(n % 16)] + rest;
      ReadEscapedControl(n, rest);
    } else {
      assert s[0] == c && s[1..] == rest;
    }
  }

  /** Only the quotation mark, the backslash and the characters below U+0020 are written otherwise than as themselves. */
  lemma EscapedExactly(c: char)
    ensures EscapeChar(c) != [c] <==> c == '"' || c == '\\' || (c as nat) < 0x20
  {
  }

  lemma {:induction false} ReadEscapedChars(s: string, rest: string)
    ensures ReadChars(EscapeOnto(s, ['"'] + rest)) == Got(s, rest)
  {
    if s == [] {
      assert EscapeOnto(s, ['"'] + rest)[1..] == rest;
    } else {
      var tail := EscapeOnto(s[1..], ['"'] + rest);
      ReadEscaped(s[0], tail);
      ReadEscapedChars(s[1..], rest);
      assert EscapeOnto(s, ['"'] + rest)[0] == EscapeChar(s[0])[0];
      assert s == [s[0]] + s[1..];
    }
  }

  /** A quoted string is read as the string it quotes. */
  lemma QuotedIsRead(s: string, rest: string)
    ensures ReadString(QuoteOnto(s, rest)) == Got(s, rest)
  {
    assert QuoteOnto(s, rest)[1..] == EscapeOnto(s, ['"'] + rest);
    ReadEscapedChars(s, rest);
  }

  // ---------------------------------------------------------------- values (sections 3 to 6)

  /** The length of the longest run of number characters at the start. */
  function NumberLength(s: string): nat {
    if s != "" && NumberChar(s[0]) then 1 + NumberLength(s[1..]) else 0
  }

  lemma {:induction false} NumberLengthBounds(s: string)
    ensures NumberLength(s) <= |s|
  {
    if s != "" && NumberChar(s[0]) { NumberLengthBounds(s[1..]); }
  }

  function ReadWord(s: string, word: string, v: Value): Read<Value> {
    if word <= s then Got(v, s[|word|..]) else Wrong
  }

  function ReadNumber(s: string): (r: Read<Value>)
    ensures r.Got? ==> |r.rest| < |s|
  {
    NumberLengthBounds(s);
    var n := NumberLength(s);
    if n == 0 then Wrong else Got(Number(s[..n]), s[n..])
  }

  function ReadValue(s: string): (r: Read<Value>)
    ensures r.Got? ==> |r.rest| < |s|
    decreases |s|, 0
  {
    if s == "" then Wrong
    else match s[0]
         case 'n' => ReadWord(s, "null", Null)
         case 't' => ReadWord(s, "true", Bool(true))
         case 'f' => ReadWord(s, "false", Bool(false))
         case '"' =>
           ReadCharsShortens(s[1..]);
           (match ReadString(s)
            case Wrong => Wrong
            case Got(text, rest) => Got(String(text), rest))
         case '[' =>
           if |s| >= 2 && s[1] == ']' then Got(Array([]), s[2..])
           else (match ReadItems(s[1..])
                 case Wrong => Wrong
                 case Got(items, rest) => Got(Array(items), rest))
         case '{' =>
           if |s| >= 2 && s[1] == '}' then Got(Object([]), s[2..])
           else (match ReadEntries(s[1..])
                 case Wrong => Wrong
                 case Got(entries, rest) => Got(Object(entries), rest))
         case _ => ReadNumber(s)
  }

  /** Values separated by commas, up to the closing bracket. */
  function ReadItems(s: string): (r: Read<seq<Value>>)
    ensures r.Got? ==> |r.rest| < |s|
    decreases |s|, 1
  {
    match ReadValue(s)
    case Wrong => Wrong
    case Got(v, rest) =>
      if rest == "" then Wrong
      else if rest[0] == ']' then Got([v], rest[1..])
      else if rest[0] != ',' then Wrong
      else match ReadItems(rest[1..])
           case Wrong => Wrong
           case Got(more, rest') => Got([v] + more, rest')
  }

  function ReadEntry(s: string): (r: Read<Entry>)
    ensures r.Got? ==> |r.rest| < |s|
    decreases |s|, 1
  {
    if s == "" then Wrong
    else
      ReadCharsShortens(s[1..]);
      match ReadString(s)
      case Wrong => Wrong
      case Got(key, rest) =>
        if rest == "" || rest[0] != ':' then Wrong
        else match ReadValue(rest[1..])
             case Wrong => Wrong
             case Got(v, rest') => Got(Entry(key, v), rest')
  }

  /** Members separated by commas, up to the closing brace. */
  function ReadEntries(s: string): (r: Read<seq<Entry>>)
    ensures r.Got? ==> |r.rest| < |s|
    decreases |s|, 2
  {
    match ReadEntry(s)
    case Wrong => Wrong
    case Got(e, rest) =>
      if rest == "" then Wrong
      else if rest[0] == '}' then Got([e], rest[1..])
      else if rest[0] != ',' then Wrong
      else match ReadEntries(rest[1..])
           case Wrong => Wrong
           case Got(more, rest') => Got([e] + more, rest')
  }

  lemma {:induction false} ReadCharsShortens(s: string)
    ensures ReadChars(s).Got? ==> |ReadChars(s).rest| < |s|
    decreases |s|
  {
    if !(s != "" && s[0] == '"') {
      ReadCharShortens(s);
      if ReadChar(s).Got? { ReadCharsShortens(ReadChar(s).rest); }
    }
  }

  // ---------------------------------------------------------------- reading undoes writing

  lemma {:induction false} NumberIsRead(d: string, rest: string)
    requires Delimited(rest) && forall i :: 0 <= i < |d| ==> NumberChar(d[i])
    ensures NumberLength(d + rest) == |d|
  {
    if d == "" {
      assert d + rest == rest;
    } else {
      assert (d + rest)[1..] == d[1..] + rest;
      NumberIsRead(d[1..], rest);
    }
  }

  lemma WordIsRead(word: string, v: Value, rest: string)
    ensures ReadWord(word + rest, word, v) == Got(v, rest)
  {
  }

  lemma ArrayIsRead(items: seq<Value>, rest: string)
    requires WellFormed(Array(items))
    requires items != [] ==> ReadItems(EmitItemsOnto(items, true, [']'] + rest)) == Got(items, rest)
    ensures ReadValue(EmitOnto(Array(items), rest)) == Got(Array(items), rest)
  {
    var text := EmitOnto(Array(items), rest);
    assert text[1..] == EmitItemsOnto(items, true, [']'] + rest);
    if items != [] {
      EmitHead(items[0], EmitItemsOnto(items[1..], false, [']'] + rest));
    }
  }

  lemma ObjectIsRead(es: seq<Entry>, rest: string)
    requires es != [] ==> ReadEntries(EmitEntriesOnto(es, true, ['}'] + rest)) == Got(es, rest)
    ensures ReadValue(EmitOnto(Object(es), rest)) == Got(Object(es), rest)
  {
    var text := EmitOnto(Object(es), rest);
    assert text[1..] == EmitEntriesOnto(es, true, ['}'] + rest);
  }

  lemma ScalarIsRead(v: Value, rest: string)
    requires WellFormed(v) && Delimited(rest) && !v.Array? && !v.Object?
    ensures ReadValue(EmitOnto(v, rest)) == Got(v, rest)
  {
    var text := EmitOnto(v, rest);
    EmitHead(v, rest);
    match v
    case Null => WordIsRead("null", v, rest);
    case Bool(b) => WordIsRead(if b then "true" else "false", v, rest);
    case Number(d) =>
      NumberIsRead(d, rest);
      assert text[..|d|] == d && text[|d|..] == rest;
    case String(s) => QuotedIsRead(s, rest);
  }

  /** The text of a value, followed by anything that may follow a value, is read as the value. */
  lemma {:induction false} EmittedIsRead(v: Value, rest: string)
    requires WellFormed(v) && Delimited(rest)
    ensures ReadValue(EmitOnto(v, rest)) == Got(v, rest)
    decreases v
  {
    match v
    case Array(items) =>
      if items != [] { ItemsAreRead(items, rest); }
      ArrayIsRead(items, rest);
    case Object(es) =>
      if es != [] { EntriesAreRead(es, rest); }
      ObjectIsRead(es, rest);
    case _ => ScalarIsRead(v, rest);
  }

  lemma LastItem(s: string, v: Value, rest: string)
    requires ReadValue(s) == Got(v, [']'] + rest)
    ensures ReadItems(s) == Got([v], rest)
  {
  }

  lemma OneMoreItem(s: string, v: Value, tail: string, items: seq<Value>, rest: string)
    requires ReadValue(s) == Got(v, [','] + tail) && ReadItems(tail) == Got(items, rest)
    ensures ReadItems(s) == Got([v] + items, rest)
  {
    assert ([','] + tail)[1..] == tail;
  }

  lemma {:induction false} ItemsAreRead(items: seq<Value>, rest: string)
    requires items != [] && WellFormed(Array(items))
    ensures ReadItems(EmitItemsOnto(items, true, [']'] + rest)) == Got(items, rest)
    decreases items
  {
    var text, more := EmitItemsOnto(items, true, [']'] + rest), items[1..];
    assert items == [items[0]] + more;
    EmittedIsRead(items[0], EmitItemsOnto(more, false, [']'] + rest));
    if more == [] {
      LastItem(text, items[0], rest);
      assert items == [items[0]];
    } else {
      ItemsAreRead(more, rest);
      OneMoreItem(text, items[0], EmitItemsOnto(more, true, [']'] + rest), more, rest);
    }
  }

  lemma {:induction false} EntryIsRead(e: Entry, rest: string)
    requires WellFormed(e.value) && Delimited(rest)
    ensures ReadEntry(EmitEntryOnto(e, rest)) == Got(e, rest)
    decreases e
  {
    var value := EmitOnto(e.value, rest);
    QuotedIsRead(e.key, [':'] + value);
    assert ([':'] + value)[1..] == value;
    EmittedIsRead(e.value, rest);
  }

  lemma LastEntry(s: string, e: Entry, rest: string)
    requires ReadEntry(s) == Got(e, ['}'] + rest)
    ensures ReadEntries(s) == Got([e], rest)
  {
  }

  lemma OneMoreEntry(s: string, e: Entry, tail: string, es: seq<Entry>, rest: string)
    requires ReadEntry(s) == Got(e, [','] + tail) && ReadEntries(tail) == Got(es, rest)
    ensures ReadEntries(s) == Got([e] + es, rest)
  {
    assert ([','] + tail)[1..] == tail;
  }

  lemma {:induction false} EntriesAreRead(es: seq<Entry>, rest: string)
    requires es != [] && EntriesWellFormed(es)
    ensures ReadEntries(EmitEntriesOnto(es, true, ['}'] + rest)) == Got(es, rest)
    decreases es
  {
    var text, more := EmitEntriesOnto(es, true, ['}'] + rest), es[1..];
    assert es == [es[0]] + more;
    EntryIsRead(es[0], EmitEntriesOnto(more, false, ['}'] + rest));
    if more == [] {
      LastEntry(text, es[0], rest);
      assert es == [es[0]];
    } else {
      EntriesAreRead(more, rest);
      OneMoreEntry(text, es[0], EmitEntriesOnto(more, true, ['}'] + rest), more, rest);
    }
  }

  // ---------------------------------------------------------------- the canonical text

  /** The keys of every object, at any depth, are in ascending order. */
  ghost predicate KeysAscend(v: Value)
    decreases v
  {
    match v
    case Array(items) => forall i :: 0 <= i < |items| ==> KeysAscend(items[i])
    case Object(es) => SortedByKey(es) && forall i :: 0 <= i < |es| ==> KeysAscend(es[i].value)
    case _ => true
  }

  lemma {:induction false} CanonAscends(v: Value)
    requires WellFormed(v)
    ensures KeysAscend(Canon(v))
    decreases v
  {
    CanonWellFormed(v);
    match v
    case Array(items) =>
      forall i | 0 <= i < |items| ensures KeysAscend(Canon(items[i])) { CanonAscends(items[i]); }
    case Object(es) =>
      var canonical := Canon(v).entries;
      forall j | 0 <= j < |canonical| ensures KeysAscend(canonical[j].value) {
        var i := CanonEntryIndex(es, canonical[j]);
        CanonAscends(es[i].value);
      }
    case _ =>
  }

  lemma {:induction false} CanonIsSame(v: Value)
    requires WellFormed(v)
    ensures Same(v, Canon(v))
    decreases v
  {
    match v
    case Array(items) =>
      forall i | 0 <= i < |items| ensures Same(items[i], Canon(items[i])) { CanonIsSame(items[i]); }
    case Object(es) =>
      var canonical := Canon(v).entries;
      CanonKeys(es);
      forall i, j | 0 <= i < |es| && 0 <= j < |canonical| && es[i].key == canonical[j].key
        ensures Same(es[i].value, canonical[j].value)
      {
        var k := CanonEntryIndex(es, canonical[j]);
        assert k == i;
        CanonIsSame(es[i].value);
      }
    case _ =>
  }

  /** The canonical text of a value is a JSON text of that value, with the keys of every object in ascending order. */
  lemma CanonicalTextIsRead(v: Value)
    requires WellFormed(v)
    ensures ReadValue(CanonicalText(v)) == Got(Canon(v), "")
    ensures Same(v, Canon(v)) && KeysAscend(Canon(v))
  {
    CanonWellFormed(v);
    EmittedIsRead(Canon(v), "");
    CanonIsSame(v);
    CanonAscends(v);
  }
}
