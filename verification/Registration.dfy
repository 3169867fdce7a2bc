/** The registration record that a protected workload publishes for the guardian. */
module Registration {
  import opened Machine
  import opened Wrappers
  import opened TextParts
  import opened Decimal
  import opened FieldSlots

  datatype Record = Record(containerId: string, scope: string, controlGroup: string)

  datatype Parsed = Accepted(record: Record) | Refused(problem: Problem)

  // ---------------------------------------------------------------- lines

  /** The lines of a text; a final newline ends the last line and does not start another. */
  function Lines(text: string): seq<string> {
    var parts := Split(text);
    if parts[|parts| - 1] == "" then parts[..|parts| - 1] else parts
  }

  /** The parts between newlines; there is always at least one. */
  function Split(text: string): (parts: seq<string>)
    ensures |parts| >= 1
  {
    if text == "" then [""]
    else
      var c, rest := text[0], Split(text[1..]);
      if c == '\n' then [""] + rest else [[c] + rest[0]] + rest[1..]
  }

  function Join(lines: seq<string>): string
    requires |lines| >= 1
  {
    if |lines| == 1 then lines[0] else lines[0] + ['\n'] + Join(lines[1..])
  }

  lemma JoinCons(line: string, rest: seq<string>)
    requires |rest| >= 1
    ensures Join([line] + rest) == line + ['\n'] + Join(rest)
  {
    assert ([line] + rest)[1..] == rest;
  }

  lemma Reassociate(a: string, b: string, c: string, d: string)
    ensures a + b + c + d == a + (b + c + d)
  {
  }

  lemma JoinHead(c: char, parts: seq<string>)
    requires |parts| >= 1
    ensures Join([[c] + parts[0]] + parts[1..]) == [c] + Join(parts)
  {
    if |parts| == 1 {
      assert [[c] + parts[0]] + parts[1..] == [[c] + parts[0]];
    } else {
      JoinCons([c] + parts[0], parts[1..]);
      Reassociate([c], parts[0], ['\n'], Join(parts[1..]));
    }
  }

  lemma {:induction false} JoinSplit(text: string)
    ensures Join(Split(text)) == text
    ensures forall i :: 0 <= i < |Split(text)| ==> '\n' !in Split(text)[i]
  {
    if text != "" {
      var rest := Split(text[1..]);
      JoinSplit(text[1..]);
      assert text == [text[0]] + text[1..];
      if text[0] == '\n' {
        JoinCons("", rest);
      } else {
        JoinHead(text[0], rest);
      }
    }
  }

  lemma {:induction false} SplitLine(line: string, rest: string)
    requires '\n' !in line
    ensures Split(line) == [line] && Split(line + ['\n'] + rest) == [line] + Split(rest)
  {
    if line == "" {
      assert line + ['\n'] + rest == ['\n'] + rest;
    } else {
      SplitLine(line[1..], rest);
      assert (line + ['\n'] + rest)[1..] == line[1..] + ['\n'] + rest;
      assert line == [line[0]] + line[1..];
    }
  }

  lemma {:induction false} SplitJoin(lines: seq<string>)
    requires |lines| >= 1 && forall i :: 0 <= i < |lines| ==> '\n' !in lines[i]
    ensures Split(Join(lines)) == lines
  {
    if |lines| == 1 {
      SplitLine(lines[0], "");
    } else {
      SplitLine(lines[0], Join(lines[1..]));
      SplitJoin(lines[1..]);
      assert lines == [lines[0]] + lines[1..];
    }
  }

  lemma {:induction false} JoinSnoc(lines: seq<string>)
    requires |lines| >= 1
    ensures Join(lines + [""]) == Join(lines) + ['\n']
  {
    if |lines| == 1 {
      assert (lines + [""])[1..] == [""];
    } else {
      JoinSnoc(lines[1..]);
      assert (lines + [""])[1..] == lines[1..] + [""];
    }
  }

  predicate Printable(lines: seq<string>) {
    |lines| >= 1 && forall i :: 0 <= i < |lines| ==> lines[i] != "" && '\n' !in lines[i]
  }

  lemma LinesOfJoin(lines: seq<string>)
    requires Printable(lines)
    ensures Lines(Join(lines)) == lines && Lines(Join(lines) + ['\n']) == lines
  {
    SplitJoin(lines);
    SplitJoin(lines + [""]);
    JoinSnoc(lines);
  }

  /** A text has these non-empty lines exactly when it is they, joined, with or without a final newline. */
  lemma LinesOfText(text: string, lines: seq<string>)
    requires Printable(lines)
    ensures Lines(text) == lines <==> text == Join(lines) || text == Join(lines) + ['\n']
  {
    LinesOfJoin(lines);
    if Lines(text) == lines {
      var parts := Split(text);
      JoinSplit(text);
      if parts[|parts| - 1] == "" {
        assert parts == lines + [""];
        JoinSnoc(lines);
      }
    }
  }

  // ---------------------------------------------------------------- the record

  predicate HexChar(c: char) {
    '0' <= c <= '9' || 'a' <= c <= 'f'
  }

  predicate ValidId(id: string) {
    |id| == 64 && forall i :: 0 <= i < |id| ==> HexChar(id[i])
  }

  function ScopeOf(id: string): string {
    "docker-" + id + ".scope"
  }

  function GroupOf(id: string, uid: U32): string {
    "/user.slice/user-" + Digits(uid) + ".slice/user@" + Digits(uid) + ".service/app.slice/" + ScopeOf(id)
  }

  function RecordOf(id: string, uid: U32): Record {
    Record(id, ScopeOf(id), GroupOf(id, uid))
  }

  function KeyText(key: Key): string {
    match key
    case VersionKey => "version"
    case IdKey => "container_id"
    case ScopeKey => "scope"
    case GroupKey => "control_group"
  }

  function KeyOf(text: string): Option<Key> {
    if text == "version" then Some(VersionKey)
    else if text == "container_id" then Some(IdKey)
    else if text == "scope" then Some(ScopeKey)
    else if text == "control_group" then Some(GroupKey)
    else None
  }

  function Field(key: string, value: string): string {
    key + (['='] + value)
  }

  function ValueOf(key: Key, id: string, uid: U32): string {
    match key
    case VersionKey => "1"
    case IdKey => id
    case ScopeKey => ScopeOf(id)
    case GroupKey => GroupOf(id, uid)
  }

  function Values(id: string, uid: U32): Key -> string {
    (key: Key) => ValueOf(key, id, uid)
  }

  function LineOf(key: Key, value: string): string {
    Field(KeyText(key), value)
  }

  /** The four lines of the record. */
  function RecordText(id: string, uid: U32): seq<string> {
    RecordLines(LineOf, Values(id, uid))
  }

  // ---------------------------------------------------------------- parsing

  function ReadLine(line: string): LineField {
    if line == "" || '\r' in line || '\0' in line then Bad(MalformedLine)
    else match SplitOnce(line, '=')
         case None => Bad(MalformedLine)
         case Some((key, value)) =>
           if value == "" || '=' in value then Bad(MalformedLine)
           else if KeyOf(key).None? then Bad(UnknownField)
           else FieldOf(KeyOf(key).value, value)
  }

  function Conclude(slots: Slots, uid: U32): Parsed {
    if VersionKey !in slots then Refused(MissingField)
    else if slots[VersionKey] != "1" then Refused(WrongVersion)
    else if IdKey !in slots then Refused(MissingField)
    else if !ValidId(slots[IdKey]) then Refused(InvalidContainerId)
    else if ScopeKey !in slots then Refused(MissingField)
    else if slots[ScopeKey] != ScopeOf(slots[IdKey]) then Refused(InvalidScope)
    else if GroupKey !in slots then Refused(MissingField)
    else if slots[GroupKey] != GroupOf(slots[IdKey], uid) then Refused(InvalidControlGroup)
    else Accepted(Record(slots[IdKey], slots[ScopeKey], slots[GroupKey]))
  }

  function Parse(text: string, uid: U32): Parsed {
    match TakeLines(ReadLine, Lines(text))
    case Stuck(problem) => Refused(problem)
    case Filled(slots) => Conclude(slots, uid)
  }

  /** `input` is the decoded file, or `None` if it is not UTF-8. */
  method ParseRegistration(input: Option<string>, uid: U32) returns (parsed: Parsed)
    ensures parsed == if input.None? then Refused(InvalidUtf8) else Parse(input.value, uid)
  {
    if input.None? {
      return Refused(InvalidUtf8);
    }
    var lines := Lines(input.value);
    var slots: Slots := map[];
    for i := 0 to |lines|
      invariant TakeLines(ReadLine, lines[..i]) == Filled(slots)
    {
      assert lines[..i + 1][..i] == lines[..i];
      var field := ReadLine(lines[i]);
      if field.Bad? {
        StuckStays(ReadLine, lines, i + 1);
        return Refused(field.problem);
      }
      if field.key in slots {
        StuckStays(ReadLine, lines, i + 1);
        return Refused(DuplicateField);
      }
      slots := slots[field.key := field.value];
    }
    assert lines[..|lines|] == lines;
    parsed := Conclude(slots, uid);
  }

  // ---------------------------------------------------------------- fields

  /** No character that the format uses or refuses. */
  predicate Plain(s: string) {
    forall i :: 0 <= i < |s| ==> s[i] !in "=\r\0\n"
  }

  lemma PlainConcat(a: string, b: string)
    requires Plain(a) && Plain(b)
    ensures Plain(a + b)
  {
  }

  lemma KeysArePlain(key: Key)
    ensures Plain(KeyText(key)) && KeyText(key) != "" && KeyOf(KeyText(key)) == Some(key)
  {
  }

  lemma KeyOfText(text: string)
    ensures KeyOf(text).Some? ==> KeyText(KeyOf(text).value) == text
  {
  }

  lemma ScopeIsPlain(id: string)
    requires Plain(id)
    ensures Plain(ScopeOf(id)) && ScopeOf(id) != ""
  {
    PlainConcat("docker-", id);
    PlainConcat("docker-" + id, ".scope");
  }

  lemma GroupIsPlain(id: string, uid: U32)
    requires Plain(id)
    ensures Plain(GroupOf(id, uid)) && GroupOf(id, uid) != ""
  {
    ScopeIsPlain(id);
    var u := Digits(uid);
    PlainConcat("/user.slice/user-", u);
    PlainConcat("/user.slice/user-" + u, ".slice/user@");
    PlainConcat("/user.slice/user-" + u + ".slice/user@", u);
    PlainConcat("/user.slice/user-" + u + ".slice/user@" + u, ".service/app.slice/");
    PlainConcat("/user.slice/user-" + u + ".slice/user@" + u + ".service/app.slice/", ScopeOf(id));
  }

  lemma ValuesArePlain(key: Key, id: string, uid: U32)
    requires ValidId(id)
    ensures Plain(ValueOf(key, id, uid)) && ValueOf(key, id, uid) != ""
  {
    ScopeIsPlain(id);
    GroupIsPlain(id, uid);
  }

  /** A line is read as a field exactly when it is that field, written out plainly. */
  lemma ReadLineOf(key: Key, value: string)
    requires Plain(value) && value != ""
    ensures ReadLine(LineOf(key, value)) == FieldOf(key, value)
    ensures LineOf(key, value) != "" && '\n' !in LineOf(key, value)
  {
    KeysArePlain(key);
    SplitAtFirst(KeyText(key), value, '=');
    var line := LineOf(key, value);
    assert forall i :: 0 <= i < |line| ==> line[i] !in "\r\0\n";
  }

  lemma ReadLineGives(line: string)
    requires ReadLine(line).FieldOf?
    ensures line == LineOf(ReadLine(line).key, ReadLine(line).value)
  {
    SplitJoins(line, '=');
    KeyOfText(SplitOnce(line, '=').value.0);
  }

  // ---------------------------------------------------------------- accepted exactly

  lemma FieldsReadBack()
    ensures ReadsBack(ReadLine, LineOf)
  {
    forall line | ReadLine(line).FieldOf? ensures line == LineOf(ReadLine(line).key, ReadLine(line).value) {
      ReadLineGives(line);
    }
  }

  lemma RecordWritesBack(id: string, uid: U32)
    requires ValidId(id)
    ensures WritesBack(ReadLine, LineOf, Values(id, uid))
  {
    forall key: Key ensures ReadLine(LineOf(key, ValueOf(key, id, uid))) == FieldOf(key, ValueOf(key, id, uid)) {
      ValuesArePlain(key, id, uid);
      ReadLineOf(key, ValueOf(key, id, uid));
    }
  }

  /** `lines` is the record in some order. */
  ghost predicate Reordered(lines: seq<string>, id: string, uid: U32) {
    ValidId(id) && multiset(lines) == multiset(RecordText(id, uid))
  }

  lemma ConcludedSlots(slots: Slots, uid: U32)
    requires Conclude(slots, uid).Accepted?
    ensures IdKey in slots && ValidId(slots[IdKey]) && Conclude(slots, uid) == Accepted(RecordOf(slots[IdKey], uid))
    ensures slots == AllSlots(Values(slots[IdKey], uid))
  {
    forall key: Key ensures key in slots && slots[key] == Values(slots[IdKey], uid)(key) {
      match key {
        case VersionKey =>
        case IdKey =>
        case ScopeKey =>
        case GroupKey =>
      }
    }
    SlotsAreAll(Values(slots[IdKey], uid), slots);
  }

  lemma ConcludesRecord(id: string, uid: U32)
    requires ValidId(id)
    ensures Conclude(AllSlots(Values(id, uid)), uid) == Accepted(RecordOf(id, uid))
  {
    AllSlotsHold(Values(id, uid), VersionKey);
    AllSlotsHold(Values(id, uid), IdKey);
    AllSlotsHold(Values(id, uid), ScopeKey);
    AllSlotsHold(Values(id, uid), GroupKey);
  }

  lemma AcceptedIsReordered(lines: seq<string>, slots: Slots, uid: U32)
    requires TakeLines(ReadLine, lines) == Filled(slots) && Conclude(slots, uid).Accepted?
    ensures IdKey in slots && Reordered(lines, slots[IdKey], uid) && Conclude(slots, uid) == Accepted(RecordOf(slots[IdKey], uid))
  {
    FieldsReadBack();
    TakenLines(ReadLine, LineOf, lines);
    ConcludedSlots(slots, uid);
    AllSlotLines(LineOf, Values(slots[IdKey], uid));
  }

  lemma ReorderedIsAccepted(lines: seq<string>, id: string, uid: U32)
    requires Reordered(lines, id, uid)
    ensures TakeLines(ReadLine, lines).Filled? && Conclude(TakeLines(ReadLine, lines).slots, uid) == Accepted(RecordOf(id, uid))
  {
    RecordWritesBack(id, uid);
    AnyOrderFills(ReadLine, LineOf, Values(id, uid), lines);
    ConcludesRecord(id, uid);
  }

  lemma AcceptedLines(text: string, uid: U32, record: Record)
    ensures Parse(text, uid) == Accepted(record) <==>
            exists id :: Reordered(Lines(text), id, uid) && record == RecordOf(id, uid)
  {
    var lines := Lines(text);
    if Parse(text, uid) == Accepted(record) {
      AcceptedIsReordered(lines, TakeLines(ReadLine, lines).slots, uid);
    }
    forall id | Reordered(lines, id, uid) && record == RecordOf(id, uid) ensures Parse(text, uid) == Accepted(record) {
      ReorderedIsAccepted(lines, id, uid);
    }
  }

  lemma RecordIsPrintable(id: string, uid: U32)
    requires ValidId(id)
    ensures Printable(RecordText(id, uid))
  {
    forall key: Key ensures LineOf(key, ValueOf(key, id, uid)) != "" && '\n' !in LineOf(key, ValueOf(key, id, uid)) {
      ValuesArePlain(key, id, uid);
      ReadLineOf(key, ValueOf(key, id, uid));
    }
  }

  lemma ReorderedIsPrintable(lines: seq<string>, id: string, uid: U32)
    requires Reordered(lines, id, uid)
    ensures Printable(lines)
  {
    RecordIsPrintable(id, uid);
    var record := RecordText(id, uid);
    assert |multiset(lines)| == |multiset(record)|;
    forall i | 0 <= i < |lines| ensures lines[i] != "" && '\n' !in lines[i] {
      assert lines[i] in multiset(lines);
      assert lines[i] in record;
    }
  }

  /** The text is the lines of the record of this id, in some order, with or without a final newline. */
  ghost predicate IsRecordOf(text: string, lines: seq<string>, id: string, uid: U32) {
    Reordered(lines, id, uid) && |lines| >= 1 && (text == Join(lines) || text == Join(lines) + ['\n'])
  }

  /** A text is accepted exactly when it is the four lines of a record, in any order, with or without a final
      newline; the result is a function of the record's container id and the uid alone. */
  lemma AcceptedExactly(text: string, uid: U32, record: Record)
    ensures Parse(text, uid) == Accepted(record) <==>
            exists id, lines :: IsRecordOf(text, lines, id, uid) && record == RecordOf(id, uid)
  {
    AcceptedLines(text, uid, record);
    if Parse(text, uid) == Accepted(record) {
      var id :| Reordered(Lines(text), id, uid) && record == RecordOf(id, uid);
      ReorderedIsPrintable(Lines(text), id, uid);
      LinesOfText(text, Lines(text));
      assert IsRecordOf(text, Lines(text), id, uid);
    }
    forall id, lines | IsRecordOf(text, lines, id, uid) && record == RecordOf(id, uid)
      ensures Parse(text, uid) == Accepted(record)
    {
      ReorderedIsPrintable(lines, id, uid);
      LinesOfText(text, lines);
    }
  }

  /** The printed record, with or without its final newline, is parsed back. */
  lemma PrintedRecordIsParsed(id: string, uid: U32)
    requires ValidId(id)
    ensures Parse(Join(RecordText(id, uid)), uid) == Accepted(RecordOf(id, uid))
    ensures Parse(Join(RecordText(id, uid)) + ['\n'], uid) == Accepted(RecordOf(id, uid))
  {
    RecordIsPrintable(id, uid);
    LinesOfJoin(RecordText(id, uid));
    ReorderedIsAccepted(RecordText(id, uid), id, uid);
  }
}
