/** Which problem a refused registration record is refused for. */
module RegistrationRefusals {
  import opened Machine
  import opened Wrappers
  import opened TextParts
  import opened FieldSlots
  import opened Registration

  // ---------------------------------------------------------------- one line

  /** The only equals sign of the line is at `k`, and something follows it. */
  predicate OnlyEqualsAt(line: string, k: nat) {
    k + 1 < |line| && line[k] == '=' && '=' !in line[..k] && '=' !in line[k + 1..]
  }

  lemma SplitAtOnly(line: string, k: nat)
    requires OnlyEqualsAt(line, k)
    ensures SplitOnce(line, '=') == Some((line[..k], line[k + 1..]))
  {
    assert line == line[..k] + (['='] + line[k + 1..]);
    SplitAtFirst(line[..k], line[k + 1..], '=');
  }

  lemma OnlyOneToSplit(line: string, key: string, value: string)
    requires SplitOnce(line, '=') == Some((key, value))
    ensures |key| < |line| && line[..|key|] == key
    ensures forall k: nat :: OnlyEqualsAt(line, k) ==> k == |key|
    ensures OnlyEqualsAt(line, |key|) <==> value != "" && '=' !in value
  {
    SplitJoins(line, '=');
    forall k: nat | OnlyEqualsAt(line, k) ensures k == |key| {
      SplitAtOnly(line, k);
    }
    assert line[|key| + 1..] == value;
  }

  /** A line is malformed exactly if it holds a carriage return or a zero character, or is not one key and one non-empty
      value with one equals sign between them. */
  lemma MalformedExactly(line: string)
    ensures ReadLine(line) == Bad(MalformedLine) <==>
            '\r' in line || '\0' in line || !exists k: nat :: OnlyEqualsAt(line, k)
  {
    SplitJoins(line, '=');
    if SplitOnce(line, '=').Some? {
      OnlyOneToSplit(line, SplitOnce(line, '=').value.0, SplitOnce(line, '=').value.1);
    }
  }

  /** Otherwise it is the field of its key with its value, or unknown. */
  lemma FieldExactly(line: string, k: nat)
    requires OnlyEqualsAt(line, k) && '\r' !in line && '\0' !in line
    ensures if line[..k] in {"version", "container_id", "scope", "control_group"} then
              && ReadLine(line).FieldOf?
              && KeyText(ReadLine(line).key) == line[..k] && ReadLine(line).value == line[k + 1..]
            else ReadLine(line) == Bad(UnknownField)
  {
    SplitAtOnly(line, k);
  }

  // ---------------------------------------------------------------- all lines

  /** The value given for a key. */
  function Given(lines: seq<string>, key: Key): Option<string> {
    if lines == [] then None
    else
      var field := ReadLine(lines[|lines| - 1]);
      if field.FieldOf? && field.key == key then Some(field.value) else Given(lines[..|lines| - 1], key)
  }

  /** The line can follow these: it is a field whose key is not given yet. */
  predicate FitsAfter(lines: seq<string>, line: string) {
    ReadLine(line).FieldOf? && Given(lines, ReadLine(line).key).None?
  }

  ghost predicate AllFit(lines: seq<string>) {
    forall i :: 0 <= i < |lines| ==> FitsAfter(lines[..i], lines[i])
  }

  lemma {:induction false} FittingLinesFill(lines: seq<string>)
    requires AllFit(lines)
    ensures TakeLines(ReadLine, lines).Filled?
    ensures Holds(TakeLines(ReadLine, lines).slots, lines)
  {
    if lines != [] {
      var before, line := lines[..|lines| - 1], lines[|lines| - 1];
      assert forall i :: 0 <= i < |before| ==> before[..i] == lines[..i];
      FittingLinesFill(before);
      assert FitsAfter(before, line);
    }
  }

  /** A text is refused for its first line that does not fit: as a duplicate if it is a field, else for its own
      problem. */
  lemma FirstBadLine(text: string, uid: U32, i: nat)
    requires i < |Lines(text)| && AllFit(Lines(text)[..i]) && !FitsAfter(Lines(text)[..i], Lines(text)[i])
    ensures var field := ReadLine(Lines(text)[i]);
            Parse(text, uid) == Refused(if field.Bad? then field.problem else DuplicateField)
  {
    var lines := Lines(text);
    FittingLinesFill(lines[..i]);
    assert lines[..i + 1][..i] == lines[..i];
    StuckStays(ReadLine, lines, i + 1);
  }

  // ---------------------------------------------------------------- the fields

  const FIELD_ORDER: seq<Key> := [VersionKey, IdKey, ScopeKey, GroupKey]

  /** What is wrong with a field, given a container id for those that depend on it. */
  function Fault(lines: seq<string>, uid: U32, key: Key): Option<Problem> {
    var id := Given(lines, IdKey);
    match Given(lines, key)
    case None => Some(MissingField)
    case Some(value) =>
      match key
      case VersionKey => if value == "1" then None else Some(WrongVersion)
      case IdKey => if ValidId(value) then None else Some(InvalidContainerId)
      case ScopeKey => if id.Some? && value == ScopeOf(id.value) then None else Some(InvalidScope)
      case GroupKey => if id.Some? && value == GroupOf(id.value, uid) then None else Some(InvalidControlGroup)
  }

  predicate FirstFault(lines: seq<string>, uid: U32, n: nat) {
    && n < 4 && Fault(lines, uid, FIELD_ORDER[n]).Some?
    && forall m :: 0 <= m < n ==> Fault(lines, uid, FIELD_ORDER[m]).None?
  }

  /** The slots hold what the lines give. */
  ghost predicate Holds(slots: Slots, lines: seq<string>) {
    forall key: Key :: Given(lines, key) == if key in slots then Some(slots[key]) else None
  }

  lemma FaultConcludes(lines: seq<string>, uid: U32, slots: Slots, n: nat)
    requires Holds(slots, lines) && FirstFault(lines, uid, n)
    ensures Conclude(slots, uid) == Refused(Fault(lines, uid, FIELD_ORDER[n]).value)
  {
    if n > 0 { assert Fault(lines, uid, FIELD_ORDER[0]).None?; }
    if n > 1 { assert Fault(lines, uid, FIELD_ORDER[1]).None?; }
    if n > 2 { assert Fault(lines, uid, FIELD_ORDER[2]).None?; }
    assert n == 0 || n == 1 || n == 2 || n == 3;
  }

  lemma FaultlessConcludes(lines: seq<string>, uid: U32, slots: Slots)
    requires Holds(slots, lines)
    ensures Conclude(slots, uid).Accepted? <==>
            && Fault(lines, uid, VersionKey).None? && Fault(lines, uid, IdKey).None?
            && Fault(lines, uid, ScopeKey).None? && Fault(lines, uid, GroupKey).None?
  {
  }

  /** If every line fits, the text is accepted exactly if no field is missing or wrong, and refused for the first that
      is, in the order version, container id, scope, control group. */
  lemma FirstBadField(text: string, uid: U32)
    requires AllFit(Lines(text))
    ensures Parse(text, uid).Accepted? <==>
            && Fault(Lines(text), uid, VersionKey).None? && Fault(Lines(text), uid, IdKey).None?
            && Fault(Lines(text), uid, ScopeKey).None? && Fault(Lines(text), uid, GroupKey).None?
    ensures forall n: nat :: FirstFault(Lines(text), uid, n) ==>
                               Parse(text, uid) == Refused(Fault(Lines(text), uid, FIELD_ORDER[n]).value)
  {
    var lines := Lines(text);
    FittingLinesFill(lines);
    var slots := TakeLines(ReadLine, lines).slots;
    assert Parse(text, uid) == Conclude(slots, uid) && Holds(slots, lines);
    FaultlessConcludes(lines, uid, slots);
    forall n: nat | FirstFault(lines, uid, n) ensures Conclude(slots, uid) == Refused(Fault(lines, uid, FIELD_ORDER[n]).value) {
      FaultConcludes(lines, uid, slots, n);
    }
  }
}
