/** Counters of hashes that stop admitting new keys at a fixed size. */
module CappedCounts {
  import opened Machine
  import opened Wrappers

  /** A 64-bit hash. */
  type Hash = nat

  datatype Counter = Counter(counts: map<Hash, U32>, capped: U64)

  const Empty := Counter(map[], 0)

  /** One observation of `key`: the new counter, and the key's count if it is tracked. */
  function Increment(c: Counter, key: Hash, cap: nat): (Counter, Option<U32>) {
    if key in c.counts then
      var n := SatAdd32(c.counts[key], 1);
      (c.(counts := c.counts[key := n]), Some(n))
    else if |c.counts| >= cap then (c.(capped := SatAdd64(c.capped, 1)), None)
    else (c.(counts := c.counts[key := 1]), Some(1))
  }

  datatype Uniques = Uniques(hashes: set<Hash>, capped: U64)

  function Track(u: Uniques, key: Hash, cap: nat): Uniques {
    if key in u.hashes then u
    else if |u.hashes| >= cap then u.(capped := SatAdd64(u.capped, 1))
    else u.(hashes := u.hashes + {key})
  }

  /** The counter after observing all `keys`. */
  function Count(keys: seq<Hash>, cap: nat): Counter {
    if keys == [] then Empty else Increment(Count(keys[..|keys| - 1], cap), keys[|keys| - 1], cap).0
  }

  // ---------------------------------------------------------------- what is counted

  /** The distinct keys, in the order of their first occurrence. */
  function Distinct(keys: seq<Hash>): (d: seq<Hash>)
    ensures |d| <= |keys|
    ensures forall k :: k in d <==> k in keys
    ensures forall i, j :: 0 <= i < j < |d| ==> d[i] != d[j]
  {
    if keys == [] then []
    else
      var d, key := Distinct(keys[..|keys| - 1]), keys[|keys| - 1];
      assert keys == keys[..|keys| - 1] + [key];
      if key in d then d else d + [key]
  }

  /** The first `cap` distinct keys. */
  function Admitted(keys: seq<Hash>, cap: nat): seq<Hash> {
    var d := Distinct(keys);
    if |d| <= cap then d else d[..cap]
  }

  function Occurrences(keys: seq<Hash>, key: Hash): nat {
    multiset(keys)[key]
  }

  /** The number of observations whose key is not among `admitted`. */
  function Dropped(keys: seq<Hash>, admitted: seq<Hash>): nat {
    if keys == [] then 0
    else Dropped(keys[..|keys| - 1], admitted) + if keys[|keys| - 1] in admitted then 0 else 1
  }

  /** The sum of the counts of the given keys. */
  function Total(counts: map<Hash, U32>, keys: seq<Hash>): nat
    requires forall k :: k in keys ==> k in counts
  {
    if keys == [] then 0 else Total(counts, keys[..|keys| - 1]) + counts[keys[|keys| - 1]]
  }

  lemma {:induction false} DroppedIgnores(keys: seq<Hash>, admitted: seq<Hash>, key: Hash)
    requires key !in keys
    ensures Dropped(keys, admitted + [key]) == Dropped(keys, admitted)
  {
    if keys != [] { DroppedIgnores(keys[..|keys| - 1], admitted, key); }
  }

  /** The counter holds exactly the keys in `admitted`, with their true multiplicities, and counts
      every other observation as capped; all counts saturate at their width. */
  ghost predicate Exact(c: Counter, keys: seq<Hash>, admitted: seq<Hash>) {
    && |c.counts| == |admitted|
    && (forall k :: k in c.counts <==> k in admitted)
    && (forall k :: k in c.counts ==> c.counts[k] == Min(Occurrences(keys, k), U32_MAX))
    && c.capped == Min(Dropped(keys, admitted), U64_MAX)
  }

  lemma CountKnown(c: Counter, keys: seq<Hash>, admitted: seq<Hash>, key: Hash, cap: nat)
    requires Exact(c, keys, admitted) && key in admitted
    ensures Exact(Increment(c, key, cap).0, keys + [key], admitted)
  {
    assert (keys + [key])[..|keys|] == keys;
    var after := Increment(c, key, cap).0;
    assert after.counts.Keys == c.counts.Keys;
    assert |after.counts| == |after.counts.Keys| == |c.counts|;
  }

  lemma CountNew(c: Counter, keys: seq<Hash>, admitted: seq<Hash>, key: Hash, cap: nat)
    requires Exact(c, keys, admitted) && key !in admitted && key !in keys && |admitted| < cap
    ensures Exact(Increment(c, key, cap).0, keys + [key], admitted + [key])
  {
    assert (keys + [key])[..|keys|] == keys;
    var after := Increment(c, key, cap).0;
    assert after.counts.Keys == c.counts.Keys + {key};
    assert |after.counts| == |after.counts.Keys| == |c.counts| + 1;
    DroppedIgnores(keys, admitted, key);
    assert Occurrences(keys, key) == 0;
  }

  lemma CountDropped(c: Counter, keys: seq<Hash>, admitted: seq<Hash>, key: Hash, cap: nat)
    requires Exact(c, keys, admitted) && key !in admitted && |admitted| >= cap
    ensures Exact(Increment(c, key, cap).0, keys + [key], admitted)
  {
    assert (keys + [key])[..|keys|] == keys;
  }

  lemma AdmittedStep(keys: seq<Hash>, key: Hash, cap: nat)
    ensures Admitted(keys + [key], cap) ==
            if key !in keys && |Admitted(keys, cap)| < cap then Admitted(keys, cap) + [key] else Admitted(keys, cap)
  {
    assert (keys + [key])[..|keys|] == keys;
  }

  /** Counting keeps the first `cap` distinct keys, exactly. */
  lemma {:induction false} CountIsExact(keys: seq<Hash>, cap: nat)
    ensures Exact(Count(keys, cap), keys, Admitted(keys, cap))
  {
    if keys != [] {
      var before, key := keys[..|keys| - 1], keys[|keys| - 1];
      assert keys == before + [key];
      CountIsExact(before, cap);
      AdmittedStep(before, key, cap);
      var c, admitted := Count(before, cap), Admitted(before, cap);
      if key in admitted {
        CountKnown(c, before, admitted, key, cap);
      } else if key !in before && |admitted| < cap {
        CountNew(c, before, admitted, key, cap);
      } else {
        CountDropped(c, before, admitted, key, cap);
      }
    }
  }

  /** Below the cap, a key that is not tracked has not been observed. */
  lemma UntrackedIsUnseen(keys: seq<Hash>, key: Hash, cap: nat)
    requires key !in Count(keys, cap).counts && |Count(keys, cap).counts| < cap
    ensures key !in keys
  {
    CountIsExact(keys, cap);
  }

  lemma TrackedIsSeen(keys: seq<Hash>, key: Hash, cap: nat)
    requires key in Count(keys, cap).counts
    ensures key in keys
  {
    CountIsExact(keys, cap);
    assert key in Distinct(keys);
  }

  /** No count of these keys has saturated. */
  ghost predicate CountsFit(keys: seq<Hash>, ks: seq<Hash>) {
    forall k :: k in ks ==> Occurrences(keys, k) <= U32_MAX
  }

  lemma {:induction false} TotalOf(c: Counter, keys: seq<Hash>, ks: seq<Hash>)
    requires forall k :: k in ks ==> k in c.counts
    requires forall k :: k in c.counts ==> c.counts[k] == Min(Occurrences(keys, k), U32_MAX)
    requires forall i, j :: 0 <= i < j < |ks| ==> ks[i] != ks[j]
    ensures Total(c.counts, ks) + Dropped(keys, ks) <= |keys|
    ensures Total(c.counts, ks) + Dropped(keys, ks) == |keys| <==> CountsFit(keys, ks)
  {
    if ks == [] {
      NoneAdmitted(keys);
    } else {
      var rest, k := ks[..|ks| - 1], ks[|ks| - 1];
      TotalOf(c, keys, rest);
      assert ks == rest + [k];
      DroppedBy(keys, rest, k);
      assert CountsFit(keys, ks) <==> CountsFit(keys, rest) && Occurrences(keys, k) <= U32_MAX;
    }
  }

  lemma {:induction false} NoneAdmitted(keys: seq<Hash>)
    ensures Dropped(keys, []) == |keys|
  {
    if keys != [] { NoneAdmitted(keys[..|keys| - 1]); }
  }

  lemma {:induction false} DroppedBy(keys: seq<Hash>, admitted: seq<Hash>, key: Hash)
    requires key !in admitted
    ensures Dropped(keys, admitted + [key]) + Occurrences(keys, key) == Dropped(keys, admitted)
  {
    if keys != [] {
      assert keys == keys[..|keys| - 1] + [keys[|keys| - 1]];
      DroppedBy(keys[..|keys| - 1], admitted, key);
    }
  }

  /** Nothing is lost, exactly until a counter saturates: the counts and the capped counter add up to
      the number of observations. */
  lemma CountConserves(keys: seq<Hash>, cap: nat)
    ensures var c, admitted := Count(keys, cap), Admitted(keys, cap);
            && (forall k :: k in admitted ==> k in c.counts)
            && Total(c.counts, admitted) + c.capped <= |keys|
            && (Total(c.counts, admitted) + c.capped == |keys| <==>
                CountsFit(keys, admitted) && Dropped(keys, admitted) <= U64_MAX)
  {
    CountIsExact(keys, cap);
    TotalOf(Count(keys, cap), keys, Admitted(keys, cap));
  }

  // ---------------------------------------------------------------- unique hashes

  function TrackAll(keys: seq<Hash>, cap: nat): Uniques {
    if keys == [] then Uniques({}, 0) else Track(TrackAll(keys[..|keys| - 1], cap), keys[|keys| - 1], cap)
  }

  /** Tracking and counting with one cap keep the same keys and cap the same observations. */
  lemma {:induction false} TrackedAreCounted(keys: seq<Hash>, cap: nat)
    ensures TrackAll(keys, cap) == Uniques(Count(keys, cap).counts.Keys, Count(keys, cap).capped)
  {
    if keys != [] {
      var before := keys[..|keys| - 1];
      TrackedAreCounted(before, cap);
      var c, key := Count(before, cap), keys[|keys| - 1];
      assert |c.counts| == |c.counts.Keys|;
      assert c.counts[key := 1].Keys == c.counts.Keys + {key};
    }
  }

  /** While nothing was capped, the tracked hashes are all the distinct hashes. */
  lemma UncappedIsComplete(keys: seq<Hash>, cap: nat)
    requires TrackAll(keys, cap).capped == 0
    ensures TrackAll(keys, cap).hashes == set k | k in keys
    ensures |TrackAll(keys, cap).hashes| == |Distinct(keys)|
  {
    TrackedAreCounted(keys, cap);
    CountIsExact(keys, cap);
    var d, admitted := Distinct(keys), Admitted(keys, cap);
    if |admitted| < |d| {
      var k := d[|admitted|];
      assert k in keys && k !in admitted;
      DroppedSome(keys, admitted, k);
    }
  }

  lemma {:induction false} DroppedSome(keys: seq<Hash>, admitted: seq<Hash>, key: Hash)
    requires key in keys && key !in admitted
    ensures Dropped(keys, admitted) > 0
  {
    if keys[|keys| - 1] != key {
      assert keys == keys[..|keys| - 1] + [keys[|keys| - 1]];
      DroppedSome(keys[..|keys| - 1], admitted, key);
    }
  }

  lemma {:induction false} NoneDropped(keys: seq<Hash>, admitted: seq<Hash>)
    requires forall k :: k in keys ==> k in admitted
    ensures Dropped(keys, admitted) == 0
  {
    if keys != [] {
      assert keys == keys[..|keys| - 1] + [keys[|keys| - 1]];
      NoneDropped(keys[..|keys| - 1], admitted);
    }
  }

  /** Nothing is capped exactly while there are at most `cap` distinct keys. */
  lemma UncappedExactly(keys: seq<Hash>, cap: nat)
    ensures TrackAll(keys, cap).capped == 0 <==> |Distinct(keys)| <= cap
  {
    TrackedAreCounted(keys, cap);
    CountIsExact(keys, cap);
    if TrackAll(keys, cap).capped == 0 {
      UncappedIsComplete(keys, cap);
    }
    if |Distinct(keys)| <= cap {
      NoneDropped(keys, Admitted(keys, cap));
    }
  }
}
