/** The canonical JSON writers of the loop detector: keys sorted at every level, and for tool
    calls every string value normalised first. */
module CanonicalJson {
  import opened StringOrder
  import opened Json

  // ---------------------------------------------------------------- sorting entries by key

  ghost predicate SortedByKey(es: seq<Entry>) {
    forall i, j :: 0 <= i < j < |es| ==> Less(es[i].key, es[j].key)
  }

  function Insert(e: Entry, es: seq<Entry>): (r: seq<Entry>)
    ensures multiset(r) == multiset{e} + multiset(es)
  {
    if es == [] || !Less(es[0].key, e.key) then [e] + es
    else
      assert es == [es[0]] + es[1..];
      [es[0]] + Insert(e, es[1..])
  }

  /** The entries in ascending key order. */
  function Sort(es: seq<Entry>): (r: seq<Entry>)
    ensures multiset(r) == multiset(es)
  {
    if es == [] then []
    else
      assert es == [es[0]] + es[1..];
      Insert(es[0], Sort(es[1..]))
  }

  lemma SortMembers(es: seq<Entry>)
    ensures |Sort(es)| == |es|
    ensures forall e :: e in Sort(es) <==> e in es
  {
    assert |multiset(Sort(es))| == |multiset(es)|;
    forall e ensures e in Sort(es) <==> e in es {
      assert e in Sort(es) <==> e in multiset(Sort(es));
      assert e in es <==> e in multiset(es);
    }
  }

  lemma {:induction false} InsertSorted(e: Entry, es: seq<Entry>)
    requires SortedByKey(es) && forall f :: f in es ==> f.key != e.key
    ensures SortedByKey(Insert(e, es))
  {
    if es == [] {
    } else if !Less(es[0].key, e.key) {
      Trichotomy(es[0].key, e.key);
      forall j | 0 <= j < |es| ensures Less(e.key, es[j].key) {
        if j > 0 { Transitive(e.key, es[0].key, es[j].key); }
      }
    } else {
      InsertSorted(e, es[1..]);
      var r := Insert(e, es[1..]);
      forall j | 0 <= j < |r| ensures Less(es[0].key, r[j].key) {
        assert r[j] in multiset(r);
        assert r[j] == e || r[j] in es[1..];
      }
    }
  }

  lemma {:induction false} SortSorted(es: seq<Entry>)
    requires DistinctKeys(es)
    ensures SortedByKey(Sort(es))
  {
    if es != [] {
      SortSorted(es[1..]);
      SortMembers(es[1..]);
      InsertSorted(es[0], Sort(es[1..]));
    }
  }

  lemma SameFirst(es: seq<Entry>, fs: seq<Entry>)
    requires SortedByKey(es) && SortedByKey(fs) && es != [] && fs != [] && es[0] in fs && fs[0] in es
    ensures es[0] == fs[0]
  {
    Trichotomy(es[0].key, fs[0].key);
  }

  lemma InRest(e: Entry, es: seq<Entry>)
    requires SortedByKey(es) && es != []
    ensures e in es[1..] <==> e in es && e != es[0]
  {
    assert es == [es[0]] + es[1..];
    Trichotomy(es[0].key, e.key);
  }

  /** Whatever sorting algorithm is used, distinct keys leave only one sorted order. */
  lemma {:induction false} SortedUnique(es: seq<Entry>, fs: seq<Entry>)
    requires SortedByKey(es) && SortedByKey(fs)
    requires forall e :: e in es <==> e in fs
    ensures es == fs
  {
    assert es != [] ==> es[0] in fs;
    assert fs != [] ==> fs[0] in es;
    if es != [] {
      SameFirst(es, fs);
      forall e ensures e in es[1..] <==> e in fs[1..] {
        InRest(e, es);
        InRest(e, fs);
      }
      SortedUnique(es[1..], fs[1..]);
      assert es == [es[0]] + es[1..] && fs == [fs[0]] + fs[1..];
    }
  }

  // ---------------------------------------------------------------- canonical form

  /** The value with the entries of every object in ascending key order. */
  function Canon(v: Value): Value
    decreases v
  {
    match v
    case Array(items) => Array(seq(|items|, i requires 0 <= i < |items| => Canon(items[i])))
    case Object(es) =>
      SortMembers(es);
      var sorted := Sort(es);
      Object(seq(|sorted|, i requires 0 <= i < |sorted| =>
               assert sorted[i] in es;
               Entry(sorted[i].key, Canon(sorted[i].value))))
    case _ => v
  }

  /** The text `write_canonical_json` appends for `v`. */
  function CanonicalText(v: Value): string {
    Emit(Canon(v))
  }

  ghost function KeysOf(es: seq<Entry>): set<string> {
    set e | e in es :: e.key
  }

  /** Equality of values up to the order of object keys. */
  ghost predicate Same(v: Value, w: Value)
    decreases v
  {
    if v.Array? && w.Array? then
      |v.items| == |w.items| && forall i :: 0 <= i < |v.items| ==> Same(v.items[i], w.items[i])
    else if v.Object? && w.Object? then
      && KeysOf(v.entries) == KeysOf(w.entries)
      && forall i, j :: 0 <= i < |v.entries| && 0 <= j < |w.entries| && v.entries[i].key == w.entries[j].key ==>
                          Same(v.entries[i].value, w.entries[j].value)
    else
      v == w
  }

  lemma {:induction false} CanonWellFormed(v: Value)
    requires WellFormed(v)
    ensures WellFormed(Canon(v))
    ensures v.Object? ==> SortedByKey(Canon(v).entries)
    decreases v
  {
    match v
    case Array(items) =>
      forall i | 0 <= i < |items| ensures WellFormed(Canon(items[i])) { CanonWellFormed(items[i]); }
    case Object(es) =>
      SortMembers(es);
      SortSorted(es);
      var sorted := Sort(es);
      forall i | 0 <= i < |sorted| ensures WellFormed(Canon(sorted[i].value)) {
        assert sorted[i] in es;
        CanonWellFormed(sorted[i].value);
      }
      forall i, j | 0 <= i < j < |sorted| ensures sorted[i].key != sorted[j].key {
        Trichotomy(sorted[i].key, sorted[j].key);
      }
    case _ =>
  }

  lemma CanonAt(es: seq<Entry>, k: nat)
    requires k < |es|
    ensures |Sort(es)| == |Canon(Object(es)).entries| == |es| && Sort(es)[k] in es
    ensures Canon(Object(es)).entries[k] == Entry(Sort(es)[k].key, Canon(Sort(es)[k].value))
  {
    SortMembers(es);
  }

  lemma CanonHasEntry(es: seq<Entry>, i: nat)
    requires i < |es|
    ensures Entry(es[i].key, Canon(es[i].value)) in Canon(Object(es)).entries
  {
    SortMembers(es);
    assert es[i] in Sort(es);
    var k :| 0 <= k < |Sort(es)| && Sort(es)[k] == es[i];
    CanonAt(es, k);
  }

  lemma CanonEntryIndex(es: seq<Entry>, e: Entry) returns (i: nat)
    requires e in Canon(Object(es)).entries
    ensures i < |es| && e == Entry(es[i].key, Canon(es[i].value))
  {
    var canonical := Canon(Object(es)).entries;
    var k :| 0 <= k < |canonical| && canonical[k] == e;
    SortMembers(es);
    CanonAt(es, k);
    i :| 0 <= i < |es| && es[i] == Sort(es)[k];
  }

  /** The entries of a canonical object are the canonical forms of the object's entries. */
  lemma CanonEntryOf(es: seq<Entry>)
    ensures forall e :: e in Canon(Object(es)).entries <==>
                        exists i :: 0 <= i < |es| && e == Entry(es[i].key, Canon(es[i].value))
  {
    var canonical := Canon(Object(es)).entries;
    forall i | 0 <= i < |es| ensures Entry(es[i].key, Canon(es[i].value)) in canonical {
      CanonHasEntry(es, i);
    }
    forall e | e in canonical ensures exists i :: 0 <= i < |es| && e == Entry(es[i].key, Canon(es[i].value)) {
      var i := CanonEntryIndex(es, e);
    }
  }

  lemma {:induction false} SameCanon(v: Value, w: Value)
    requires WellFormed(v) && WellFormed(w) && Same(v, w)
    ensures Canon(v) == Canon(w)
    decreases v
  {
    if v.Array? && w.Array? {
      forall i | 0 <= i < |v.items| ensures Canon(v.items[i]) == Canon(w.items[i]) {
        SameCanon(v.items[i], w.items[i]);
      }
    } else if v.Object? && w.Object? {
      forall i, j | 0 <= i < |v.entries| && 0 <= j < |w.entries| && v.entries[i].key == w.entries[j].key
        ensures Canon(v.entries[i].value) == Canon(w.entries[j].value)
      {
        SameCanon(v.entries[i].value, w.entries[j].value);
      }
      SameEntries(v.entries, w.entries);
    }
  }

  lemma SameEntries(es: seq<Entry>, fs: seq<Entry>)
    requires WellFormed(Object(es)) && WellFormed(Object(fs)) && KeysOf(es) == KeysOf(fs)
    requires forall i, j :: 0 <= i < |es| && 0 <= j < |fs| && es[i].key == fs[j].key ==>
                              Canon(es[i].value) == Canon(fs[j].value)
    ensures Canon(Object(es)) == Canon(Object(fs))
  {
    CanonWellFormed(Object(es));
    CanonWellFormed(Object(fs));
    CanonEntryOf(es);
    CanonEntryOf(fs);
    var ces, cfs := Canon(Object(es)).entries, Canon(Object(fs)).entries;
    forall i | 0 <= i < |es| ensures Entry(es[i].key, Canon(es[i].value)) in cfs {
      assert es[i].key in KeysOf(fs);
      var j :| 0 <= j < |fs| && fs[j].key == es[i].key;
    }
    forall j | 0 <= j < |fs| ensures Entry(fs[j].key, Canon(fs[j].value)) in ces {
      assert fs[j].key in KeysOf(es);
      var i :| 0 <= i < |es| && fs[j].key == es[i].key;
    }
    SortedUnique(ces, cfs);
  }

  lemma {:induction false} CanonSame(v: Value, w: Value)
    requires WellFormed(v) && WellFormed(w) && Canon(v) == Canon(w)
    ensures Same(v, w)
    decreases v
  {
    if v.Array? && w.Array? {
      forall i | 0 <= i < |v.items| ensures Same(v.items[i], w.items[i]) {
        assert Canon(v).items[i] == Canon(w).items[i];
        CanonSame(v.items[i], w.items[i]);
      }
    } else if v.Object? && w.Object? {
      CanonKeys(v.entries);
      CanonKeys(w.entries);
      forall i, j | 0 <= i < |v.entries| && 0 <= j < |w.entries| && v.entries[i].key == w.entries[j].key
        ensures Same(v.entries[i].value, w.entries[j].value)
      {
        CanonEntriesAgree(v.entries, w.entries, i, j);
        CanonSame(v.entries[i].value, w.entries[j].value);
      }
    }
  }

  lemma CanonKeys(es: seq<Entry>)
    ensures KeysOf(Canon(Object(es)).entries) == KeysOf(es)
  {
    CanonEntryOf(es);
    var canonical := Canon(Object(es)).entries;
    forall i | 0 <= i < |es| ensures es[i].key in KeysOf(canonical) {
      assert Entry(es[i].key, Canon(es[i].value)) in canonical;
    }
  }

  lemma CanonEntriesAgree(es: seq<Entry>, fs: seq<Entry>, i: nat, j: nat)
    requires WellFormed(Object(es)) && Canon(Object(es)) == Canon(Object(fs))
    requires i < |es| && j < |fs| && es[i].key == fs[j].key
    ensures Canon(es[i].value) == Canon(fs[j].value)
  {
    CanonWellFormed(Object(es));
    CanonEntryOf(es);
    CanonEntryOf(fs);
    var canonical := Canon(Object(es)).entries;
    var e, f := Entry(es[i].key, Canon(es[i].value)), Entry(fs[j].key, Canon(fs[j].value));
    assert e in canonical && f in canonical;
  }

  /** Two values print the same canonical text exactly when they are equal up to key order. */
  lemma CanonicalTextIdentifies(v: Value, w: Value)
    requires WellFormed(v) && WellFormed(w)
    ensures CanonicalText(v) == CanonicalText(w) <==> Same(v, w)
  {
    CanonWellFormed(v);
    CanonWellFormed(w);
    if Same(v, w) {
      SameCanon(v, w);
    }
    if CanonicalText(v) == CanonicalText(w) {
      EmitCancel(Canon(v), Canon(w), "", "");
      CanonSame(v, w);
    }
  }

  // ---------------------------------------------------------------- the writer

  function Separator(first: bool): string {
    if first then "" else [',']
  }

  lemma ItemWritten(before: string, items: seq<Value>, index: nat)
    requires index < |items|
    ensures before + Separator(index == 0) + Emit(items[index]) + EmitItemsOnto(items[index + 1..], false, "]")
         == before + EmitItemsOnto(items[index..], index == 0, "]")
  {
    assert items[index..][1..] == items[index + 1..];
    var tail := EmitItemsOnto(items[index + 1..], false, "]");
    EmitAppends(items[index], "", tail);
    assert "" + tail == tail;
    Reassociate(before + Separator(index == 0), Emit(items[index]), tail);
    Reassociate(before, Separator(index == 0), EmitOnto(items[index], tail));
    assert [] + EmitOnto(items[index], tail) == EmitOnto(items[index], tail);
  }

  lemma EntryWritten(before: string, es: seq<Entry>, index: nat)
    requires index < |es|
    ensures before + Separator(index == 0) + Quote(es[index].key) + [':'] + Emit(es[index].value)
            + EmitEntriesOnto(es[index + 1..], false, "}")
         == before + EmitEntriesOnto(es[index..], index == 0, "}")
  {
    assert es[index..][1..] == es[index + 1..];
    var e, tail := es[index], EmitEntriesOnto(es[index + 1..], false, "}");
    EmitAppends(e.value, "", tail);
    assert "" + tail == tail;
    var value := EmitOnto(e.value, tail);
    QuoteAppends(e.key, "", [':'] + value);
    assert "" + ([':'] + value) == [':'] + value;
    var lead := before + Separator(index == 0);
    Reassociate(lead + Quote(e.key) + [':'], Emit(e.value), tail);
    Reassociate(lead + Quote(e.key), [':'], value);
    Reassociate(lead, Quote(e.key), [':'] + value);
    Reassociate(before, Separator(index == 0), EmitEntryOnto(e, tail));
    assert [] + EmitEntryOnto(e, tail) == EmitEntryOnto(e, tail);
  }

  lemma ArrayOpens(items: seq<Value>, output: string)
    ensures output + ['['] + EmitItemsOnto(Canon(Array(items)).items, true, "]")
         == output + CanonicalText(Array(items))
  {
    assert [']'] + "" == "]";
    Reassociate(output, ['['], EmitItemsOnto(Canon(Array(items)).items, true, "]"));
  }

  lemma ObjectOpens(entries: seq<Entry>, output: string)
    ensures output + ['{'] + EmitEntriesOnto(Canon(Object(entries)).entries, true, "}")
         == output + CanonicalText(Object(entries))
  {
    assert ['}'] + "" == "}";
    Reassociate(output, ['{'], EmitEntriesOnto(Canon(Object(entries)).entries, true, "}"));
  }

  method WriteCanonicalJson(v: Value, output: string) returns (out: string)
    ensures out == output + CanonicalText(v)
    decreases v
  {
    match v
    case Null => out := output + "null";
    case Bool(b) => out := output + if b then "true" else "false";
    case Number(d) => out := output + d;
    case String(s) => out := output + Quote(s);
    case Array(items) => out := WriteArray(items, output);
    case Object(entries) => out := WriteObject(entries, output);
  }

  method WriteArray(items: seq<Value>, output: string) returns (out: string)
    ensures out == output + CanonicalText(Array(items))
    decreases items
  {
    ghost var canonical, target := Canon(Array(items)).items, output + CanonicalText(Array(items));
    out := output + ['['];
    ArrayOpens(items, output);
    assert canonical[0..] == canonical;
    for index := 0 to |items|
      invariant out + EmitItemsOnto(canonical[index..], index == 0, "]") == target
    {
      ItemWritten(out, canonical, index);
      assert out + "" == out;
      if index > 0 {
        out := out + [','];
      }
      out := WriteCanonicalJson(items[index], out);
    }
    out := out + [']'];
  }

  method WriteObject(entries: seq<Entry>, output: string) returns (out: string)
    ensures out == output + CanonicalText(Object(entries))
    decreases entries
  {
    SortMembers(entries);
    var sorted := Sort(entries);
    ghost var canonical, target := Canon(Object(entries)).entries, output + CanonicalText(Object(entries));
    out := output + ['{'];
    ObjectOpens(entries, output);
    assert canonical[0..] == canonical;
    for index := 0 to |sorted|
      invariant out + EmitEntriesOnto(canonical[index..], index == 0, "}") == target
    {
      EntryWritten(out, canonical, index);
      assert out + "" == out;
      if index > 0 {
        out := out + [','];
      }
      out := out + Quote(sorted[index].key);
      out := out + [':'];
      assert sorted[index] in entries;
      out := WriteCanonicalJson(sorted[index].value, out);
    }
    out := out + ['}'];
  }
}
