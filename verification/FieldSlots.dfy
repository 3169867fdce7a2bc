/** Filling the four slots of a registration from lines in any order, for any way of reading and
    writing a field as a line. */
module FieldSlots {

  datatype Key = VersionKey | IdKey | ScopeKey | GroupKey

  datatype Problem =
    | InvalidUtf8 | MalformedLine | UnknownField | MissingField | DuplicateField | WrongVersion
    | InvalidContainerId | InvalidScope | InvalidControlGroup

  datatype LineField = FieldOf(key: Key, value: string) | Bad(problem: Problem)

  type Slots = map<Key, string>

  datatype Filled = Filled(slots: Slots) | Stuck(problem: Problem)

  function TakeField(slots: Slots, field: LineField): Filled {
    match field
    case Bad(problem) => Stuck(problem)
    case FieldOf(key, value) => if key in slots then Stuck(DuplicateField) else Filled(slots[key := value])
  }

  /** The slots after reading all lines, or the first problem. */
  function TakeLines<L>(read: L -> LineField, lines: seq<L>): Filled {
    if lines == [] then Filled(map[])
    else match TakeLines(read, lines[..|lines| - 1])
         case Stuck(problem) => Stuck(problem)
         case Filled(slots) => TakeField(slots, read(lines[|lines| - 1]))
  }

  lemma {:induction false} StuckStays<L>(read: L -> LineField, lines: seq<L>, n: nat)
    requires n <= |lines| && TakeLines(read, lines[..n]).Stuck?
    ensures TakeLines(read, lines) == TakeLines(read, lines[..n])
    decreases |lines|
  {
    if n < |lines| {
      assert lines[..|lines| - 1][..n] == lines[..n];
      StuckStays(read, lines[..|lines| - 1], n);
    } else {
      assert lines[..n] == lines;
    }
  }

  // ---------------------------------------------------------------- what was read

  function SlotLine<L>(write: (Key, string) -> L, slots: Slots, key: Key): multiset<L> {
    if key in slots then multiset{write(key, slots[key])} else multiset{}
  }

  function Total<L>(v: multiset<L>, i: multiset<L>, s: multiset<L>, g: multiset<L>): multiset<L> {
    v + i + s + g
  }

  /** The lines that the slots were filled from. */
  function SlotLines<L>(write: (Key, string) -> L, slots: Slots): multiset<L> {
    Total(SlotLine(write, slots, VersionKey), SlotLine(write, slots, IdKey), SlotLine(write, slots, ScopeKey), SlotLine(write, slots, GroupKey))
  }

  lemma AddToOne<L>(v: multiset<L>, i: multiset<L>, s: multiset<L>, g: multiset<L>, more: multiset<L>)
    ensures Total(v + more, i, s, g) == Total(v, i, s, g) + more
    ensures Total(v, i + more, s, g) == Total(v, i, s, g) + more
    ensures Total(v, i, s + more, g) == Total(v, i, s, g) + more
    ensures Total(v, i, s, g + more) == Total(v, i, s, g) + more
  {
  }

  lemma SlotChange<L>(write: (Key, string) -> L, slots: Slots, key: Key, value: string, other: Key)
    requires key !in slots
    ensures SlotLine(write, slots[key := value], other) == SlotLine(write, slots, other) + if other == key then multiset{write(key, value)} else multiset{}
  {
  }

  lemma SlotAdds<L>(write: (Key, string) -> L, slots: Slots, key: Key, value: string)
    requires key !in slots
    ensures SlotLines(write, slots[key := value]) == SlotLines(write, slots) + multiset{write(key, value)}
  {
    SlotChange(write, slots, key, value, VersionKey);
    SlotChange(write, slots, key, value, IdKey);
    SlotChange(write, slots, key, value, ScopeKey);
    SlotChange(write, slots, key, value, GroupKey);
    var v, i, s, g := SlotLine(write, slots, VersionKey), SlotLine(write, slots, IdKey), SlotLine(write, slots, ScopeKey), SlotLine(write, slots, GroupKey);
    AddToOne(v, i, s, g, multiset{write(key, value)});
    assert v + multiset{} == v && i + multiset{} == i && s + multiset{} == s && g + multiset{} == g;
  }

  /** A line that is read as a field is that field, written. */
  ghost predicate ReadsBack<L(!new)>(read: L -> LineField, write: (Key, string) -> L) {
    forall line :: read(line).FieldOf? ==> line == write(read(line).key, read(line).value)
  }

  /** The lines read are those of the slots. */
  lemma {:induction false} TakenLines<L(!new)>(read: L -> LineField, write: (Key, string) -> L, lines: seq<L>)
    requires ReadsBack(read, write) && TakeLines(read, lines).Filled?
    ensures multiset(lines) == SlotLines(write, TakeLines(read, lines).slots)
  {
    if lines != [] {
      var before, line := lines[..|lines| - 1], lines[|lines| - 1];
      assert lines == before + [line];
      TakenLines(read, write, before);
      SlotAdds(write, TakeLines(read, before).slots, read(line).key, read(line).value);
    }
  }

  // ---------------------------------------------------------------- any order

  /** The four lines of a record. */
  function RecordLines<L>(write: (Key, string) -> L, value: Key -> string): seq<L> {
    [write(VersionKey, value(VersionKey)), write(IdKey, value(IdKey)), write(ScopeKey, value(ScopeKey)), write(GroupKey, value(GroupKey))]
  }

  function AllSlots(value: Key -> string): Slots {
    map[VersionKey := value(VersionKey), IdKey := value(IdKey), ScopeKey := value(ScopeKey), GroupKey := value(GroupKey)]
  }

  lemma MultisetOfFour<L>(a: L, b: L, c: L, d: L)
    ensures multiset([a, b, c, d]) == multiset{a} + multiset{b} + multiset{c} + multiset{d}
  {
    assert [a, b, c, d] == [a] + [b] + [c] + [d];
    assert multiset([a]) == multiset{a} && multiset([b]) == multiset{b} && multiset([c]) == multiset{c} && multiset([d]) == multiset{d};
  }

  lemma AllSlotLines<L>(write: (Key, string) -> L, value: Key -> string)
    ensures SlotLines(write, AllSlots(value)) == multiset(RecordLines(write, value))
  {
    MultisetOfFour(write(VersionKey, value(VersionKey)), write(IdKey, value(IdKey)), write(ScopeKey, value(ScopeKey)), write(GroupKey, value(GroupKey)));
    assert forall key: Key :: SlotLine(write, AllSlots(value), key) == multiset{write(key, value(key))} by {
      forall key: Key ensures SlotLine(write, AllSlots(value), key) == multiset{write(key, value(key))} {
        AllSlotsHold(value, key);
      }
    }
  }

  lemma AllSlotsHold(value: Key -> string, key: Key)
    ensures key in AllSlots(value) && AllSlots(value)[key] == value(key)
  {
    match key {
      case VersionKey =>
      case IdKey =>
      case ScopeKey =>
      case GroupKey =>
    }
  }

  lemma SlotsAreAll(value: Key -> string, slots: Slots)
    requires forall key :: key in slots && slots[key] == value(key)
    ensures slots == AllSlots(value)
  {
    forall key: Key ensures key in AllSlots(value) && AllSlots(value)[key] == value(key) {
      AllSlotsHold(value, key);
    }
  }

  /** Every field of the record, written, is read as that field. */
  ghost predicate WritesBack<L>(read: L -> LineField, write: (Key, string) -> L, value: Key -> string) {
    forall key :: read(write(key, value(key))) == FieldOf(key, value(key))
  }

  lemma EachLineOnce<L>(read: L -> LineField, write: (Key, string) -> L, value: Key -> string, key: Key)
    requires WritesBack(read, write, value)
    ensures multiset(RecordLines(write, value))[write(key, value(key))] == 1
  {
    forall other: Key ensures other != key ==> write(other, value(other)) != write(key, value(key)) {
      assert read(write(other, value(other))) == FieldOf(other, value(other));
      assert read(write(key, value(key))) == FieldOf(key, value(key));
    }
    var l := RecordLines(write, value);
    assert l == [l[0], l[1], l[2], l[3]];
    assert multiset(l) == multiset{l[0], l[1], l[2], l[3]};
  }

  lemma LineIsRecordLine<L>(write: (Key, string) -> L, value: Key -> string, lines: seq<L>, n: nat) returns (key: Key)
    requires multiset(lines) == multiset(RecordLines(write, value)) && n < |lines|
    ensures lines[n] == write(key, value(key))
  {
    var l := RecordLines(write, value);
    assert lines[n] in multiset(lines);
    assert lines[n] in l;
    var i :| 0 <= i < 4 && l[i] == lines[n];
    key := if i == 0 then VersionKey else if i == 1 then IdKey else if i == 2 then ScopeKey else GroupKey;
  }

  lemma NoRepeats<L>(lines: seq<L>, i: nat, n: nat)
    requires i < n < |lines| && lines[i] == lines[n]
    ensures multiset(lines)[lines[n]] >= 2
  {
    assert lines == lines[..n] + [lines[n]] + lines[n + 1..];
    assert lines[i] in lines[..n];
    assert lines[i] in multiset(lines[..n]);
  }

  /** The slots hold exactly the record fields whose lines were read. */
  ghost predicate Partial<L>(write: (Key, string) -> L, value: Key -> string, slots: Slots, lines: seq<L>) {
    && (forall key :: key in slots ==> slots[key] == value(key))
    && (forall key :: key in slots <==> write(key, value(key)) in lines)
  }

  lemma PartialStep<L>(read: L -> LineField, write: (Key, string) -> L, value: Key -> string, slots: Slots, lines: seq<L>, key: Key)
    requires WritesBack(read, write, value) && Partial(write, value, slots, lines)
    ensures Partial(write, value, slots[key := value(key)], lines + [write(key, value(key))])
  {
    forall other: Key | write(other, value(other)) == write(key, value(key)) ensures other == key {
      assert read(write(other, value(other))) == FieldOf(other, value(other));
      assert read(write(key, value(key))) == FieldOf(key, value(key));
    }
  }

  lemma {:induction false} PrefixFills<L>(read: L -> LineField, write: (Key, string) -> L, value: Key -> string, lines: seq<L>, n: nat)
    requires WritesBack(read, write, value) && multiset(lines) == multiset(RecordLines(write, value)) && n <= |lines|
    ensures TakeLines(read, lines[..n]).Filled? && Partial(write, value, TakeLines(read, lines[..n]).slots, lines[..n])
  {
    if n > 0 {
      PrefixFills(read, write, value, lines, n - 1);
      var before := lines[..n - 1];
      var key := LineIsRecordLine(write, value, lines, n - 1);
      assert lines[..n][..n - 1] == before && lines[..n] == before + [lines[n - 1]];
      if write(key, value(key)) in before {
        var i :| 0 <= i < n - 1 && lines[i] == write(key, value(key));
        NoRepeats(lines, i, n - 1);
        EachLineOnce(read, write, value, key);
      }
      PartialStep(read, write, value, TakeLines(read, before).slots, before, key);
    }
  }

  /** The lines of a record, in any order, fill all its slots. */
  lemma AnyOrderFills<L>(read: L -> LineField, write: (Key, string) -> L, value: Key -> string, lines: seq<L>)
    requires WritesBack(read, write, value) && multiset(lines) == multiset(RecordLines(write, value))
    ensures TakeLines(read, lines) == Filled(AllSlots(value))
  {
    assert lines[..|lines|] == lines;
    PrefixFills(read, write, value, lines, |lines|);
    var slots := TakeLines(read, lines).slots;
    forall key: Key ensures key in slots && slots[key] == value(key) {
      EachLineOnce(read, write, value, key);
      assert write(key, value(key)) in multiset(lines);
    }
    SlotsAreAll(value, slots);
  }
}
