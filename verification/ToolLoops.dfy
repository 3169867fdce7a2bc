/** Semantic tool loops: repeated fingerprints in a sliding window, alternation of two
    fingerprints, and repeated tool output. */
module ToolLoops {
  import opened Machine
  import opened Wrappers
  import opened CappedCounts
  import opened TokenScanner

  const REPEAT_THRESHOLD: nat := 3
  const OUTPUT_THRESHOLD: nat := 2
  const CYCLE_LENGTH: nat := 4

  datatype Reason = FingerprintRepeat | AlternationCycle | OutputBlockedEcho

  datatype Signal = Signal(reason: Reason, hash: Hash, count: U32, risk: real)

  function Capped(risk: real): real {
    if risk > 1.0 then 1.0 else risk
  }

  /** Three repeats give 0.6, and every further one a tenth more, up to 1. */
  function RepeatRisk(count: U32): (risk: real)
    ensures count >= 3 ==> risk == if count >= 7 then 1.0 else 0.3 + 0.1 * count as real
  {
    Capped(0.6 + (if count >= 3 then count - 3 else 0) as real * 0.1)
  }

  /** Two repeats give 0.5, and every further one 0.15 more, up to 1. */
  function EchoRisk(count: U32): (risk: real)
    ensures count >= 2 ==> risk == if count >= 6 then 1.0 else 0.2 + 0.15 * count as real
  {
    Capped(0.5 + (if count >= 2 then count - 2 else 0) as real * 0.15)
  }

  datatype ToolState = ToolState(window: seq<Hash>, counts: map<Hash, U32>, outputs: map<Hash, U32>)

  const NewTools := ToolState([], map[], map[])

  function Bump(counts: map<Hash, U32>, hash: Hash): map<Hash, U32> {
    counts[hash := if hash in counts then SatAdd32(counts[hash], 1) else 1]
  }

  function Unbump(counts: map<Hash, U32>, hash: Hash): map<Hash, U32> {
    if hash !in counts then counts
    else if counts[hash] <= 1 then counts - {hash}
    else counts[hash := counts[hash] - 1]
  }

  /** Evicts from the front until at most `max` fingerprints are left. */
  function Evict(window: seq<Hash>, counts: map<Hash, U32>, max: nat): (seq<Hash>, map<Hash, U32>)
    decreases |window|
  {
    if |window| <= max then (window, counts) else Evict(window[1..], Unbump(counts, window[0]), max)
  }

  function Push(s: ToolState, hash: Hash, max: nat): ToolState {
    var (window, counts) := Evict(s.window + [hash], s.counts, max);
    s.(window := window, counts := Bump(counts, hash))
  }

  /** The last four fingerprints are A, B, A, B with A different from B. */
  predicate Alternates(window: seq<Hash>) {
    var n := |window|;
    n >= 4 && window[n - 4] == window[n - 2] && window[n - 3] == window[n - 1] && window[n - 4] != window[n - 3]
  }

  function FingerprintSignals(s: ToolState, hash: Hash): seq<Signal> {
    (if hash in s.counts && s.counts[hash] >= REPEAT_THRESHOLD then
       [Signal(FingerprintRepeat, hash, s.counts[hash], RepeatRisk(s.counts[hash]))]
     else [])
    + (if Alternates(s.window) then [Signal(AlternationCycle, s.window[|s.window| - 4], 2, 0.75)] else [])
  }

  function OutputSignals(s: ToolState, hash: Hash): seq<Signal>
    requires hash in s.outputs
  {
    if s.outputs[hash] >= OUTPUT_THRESHOLD then [Signal(OutputBlockedEcho, 0, s.outputs[hash], EchoRisk(s.outputs[hash]))]
    else []
  }

  datatype ToolEvent = Call(hash: Hash) | Output(hash: Hash)

  /** The state after one observation, and the signals it emits. */
  function Observe(s: ToolState, e: ToolEvent, max: nat): (ToolState, seq<Signal>) {
    match e
    case Call(hash) => var next := Push(s, hash, max); (next, FingerprintSignals(next, hash))
    case Output(hash) => var next := s.(outputs := Bump(s.outputs, hash)); (next, OutputSignals(next, hash))
  }

  class ToolLoopDetector {
    const maxHistory: nat
    var fingerprints: seq<Hash>
    var fingerprintCounts: map<Hash, U32>
    var outputCounts: map<Hash, U32>
    var signals: seq<Signal>
    ghost var observed: seq<ToolEvent>

    ghost function State(): ToolState
      reads this
    {
      ToolState(fingerprints, fingerprintCounts, outputCounts)
    }

    /** The detector is where its observations have brought it, and has logged all that it emitted. */
    ghost predicate Valid()
      reads this
    {
      State() == RunOf(observed, maxHistory).state && signals == AllEmitted(observed, maxHistory)
    }

    constructor (maxHistory: nat)
      ensures Valid() && this.maxHistory == maxHistory && observed == []
    {
      this.maxHistory := maxHistory;
      fingerprints, fingerprintCounts, outputCounts, signals := [], map[], map[], [];
      observed := [];
    }

    method PushFingerprint(hash: Hash)
      modifies this`fingerprints, this`fingerprintCounts
      ensures State() == Push(old(State()), hash, maxHistory)
    {
      fingerprints := fingerprints + [hash];
      ghost var window, counts := fingerprints, fingerprintCounts;
      while |fingerprints| > maxHistory
        invariant Evict(fingerprints, fingerprintCounts, maxHistory) == Evict(window, counts, maxHistory)
        decreases |fingerprints|
      {
        var evicted := fingerprints[0];
        fingerprints := fingerprints[1..];
        if evicted in fingerprintCounts {
          var count := if fingerprintCounts[evicted] > 0 then fingerprintCounts[evicted] - 1 else 0;
          if count == 0 {
            fingerprintCounts := fingerprintCounts - {evicted};
          } else {
            fingerprintCounts := fingerprintCounts[evicted := count];
          }
        }
      }
      fingerprintCounts := Bump(fingerprintCounts, hash);
    }

    method DetectAlternation() returns (signal: Option<Signal>)
      ensures signal == if Alternates(fingerprints) then Some(Signal(AlternationCycle, fingerprints[|fingerprints| - 4], 2, 0.75)) else None
    {
      if |fingerprints| < CYCLE_LENGTH {
        return None;
      }
      var n := |fingerprints|;
      var first, second, third, fourth := fingerprints[n - 4], fingerprints[n - 3], fingerprints[n - 2], fingerprints[n - 1];
      if first == third && second == fourth && first != second {
        return Some(Signal(AlternationCycle, first, 2, 0.75));
      }
      return None;
    }

    /** What the fingerprint just pushed calls for, emitted and logged. */
    method EmitFingerprintSignals(hash: Hash) returns (emitted: seq<Signal>)
      modifies this`signals
      ensures emitted == FingerprintSignals(State(), hash) && signals == old(signals) + emitted
    {
      emitted := [];
      if hash in fingerprintCounts && fingerprintCounts[hash] >= REPEAT_THRESHOLD {
        var count := fingerprintCounts[hash];
        var signal := Signal(FingerprintRepeat, hash, count, RepeatRisk(count));
        emitted := [signal];
        signals := signals + [signal];
      }
      ghost var repeats := emitted;
      var alternation := DetectAlternation();
      if alternation.Some? {
        emitted := emitted + [alternation.value];
        signals := signals + [alternation.value];
      }
      assert emitted == repeats + if alternation.Some? then [alternation.value] else [];
    }

    /** One call; afterwards the log holds all signals of all observations. */
    method ObserveFingerprint(hash: Hash) returns (emitted: seq<Signal>)
      requires Valid()
      modifies this
      ensures Valid() && observed == old(observed) + [Call(hash)]
      ensures emitted == RunOf(observed, maxHistory).emitted && signals == old(signals) + emitted
    {
      PushFingerprint(hash);
      emitted := EmitFingerprintSignals(hash);
      observed := observed + [Call(hash)];
      assert observed[..|observed| - 1] == old(observed);
    }

    /** One output; afterwards the log holds all signals of all observations. */
    method ObserveToolOutput(hash: Hash) returns (emitted: seq<Signal>)
      requires Valid()
      modifies this`outputCounts, this`signals, this`observed
      ensures Valid() && observed == old(observed) + [Output(hash)]
      ensures emitted == RunOf(observed, maxHistory).emitted && signals == old(signals) + emitted
    {
      observed := observed + [Output(hash)];
      assert observed[..|observed| - 1] == old(observed);
      outputCounts := Bump(outputCounts, hash);
      var count := outputCounts[hash];
      if count >= OUTPUT_THRESHOLD {
        var signal := Signal(OutputBlockedEcho, 0, count, EchoRisk(count));
        signals := signals + [signal];
        return [signal];
      }
      assert signals + [] == signals;
      return [];
    }

    /** All accumulated signals; until a count is lost, exactly those that the observations call for. */
    method Signals() returns (all: seq<Signal>)
      requires Valid()
      ensures all == AllEmitted(observed, maxHistory)
      ensures 1 <= maxHistory && NothingLost(observed, maxHistory) ==> all == AllExpected(observed, maxHistory)
    {
      assert 1 <= maxHistory && NothingLost(observed, maxHistory) ==> AllEmitted(observed, maxHistory) == AllExpected(observed, maxHistory) by {
        if 1 <= maxHistory && NothingLost(observed, maxHistory) {
          SignalsAreExact(observed, maxHistory);
        }
      }
      all := signals;
    }
  }

  // ---------------------------------------------------------------- runs

  /** The state, and the signals of the last observation. */
  datatype Run = Run(state: ToolState, emitted: seq<Signal>)

  function RunOf(events: seq<ToolEvent>, max: nat): Run {
    if events == [] then Run(NewTools, [])
    else
      var (state, emitted) := Observe(RunOf(events[..|events| - 1], max).state, events[|events| - 1], max);
      Run(state, emitted)
  }

  /** Everything that the observations emit, one after the other. */
  function AllEmitted(events: seq<ToolEvent>, max: nat): seq<Signal> {
    if events == [] then [] else AllEmitted(events[..|events| - 1], max) + RunOf(events, max).emitted
  }

  function Calls(events: seq<ToolEvent>): seq<Hash> {
    if events == [] then []
    else
      var calls, e := Calls(events[..|events| - 1]), events[|events| - 1];
      if e.Call? then calls + [e.hash] else calls
  }

  function Outputs(events: seq<ToolEvent>): seq<Hash> {
    if events == [] then []
    else
      var outputs, e := Outputs(events[..|events| - 1]), events[|events| - 1];
      if e.Output? then outputs + [e.hash] else outputs
  }

  /** The map counts exactly the occurrences in the sequence. */
  ghost predicate CountsOf(counts: map<Hash, U32>, keys: seq<Hash>) {
    && (forall k :: k in counts <==> k in keys)
    && (forall k :: k in counts ==> counts[k] == Min(Occurrences(keys, k), U32_MAX))
  }

  lemma BumpCounts(counts: map<Hash, U32>, keys: seq<Hash>, hash: Hash)
    requires CountsOf(counts, keys)
    ensures CountsOf(Bump(counts, hash), keys + [hash])
  {
  }

  lemma OccurrencesOfRest(keys: seq<Hash>, k: Hash)
    requires keys != []
    ensures Occurrences(keys, k) == Occurrences(keys[1..], k) + if k == keys[0] then 1 else 0
    ensures k in keys[1..] <==> Occurrences(keys[1..], k) > 0
  {
    assert keys == [keys[0]] + keys[1..];
    assert multiset(keys) == multiset{keys[0]} + multiset(keys[1..]);
    assert k in keys[1..] <==> k in multiset(keys[1..]);
  }

  lemma UnbumpCounts(counts: map<Hash, U32>, keys: seq<Hash>)
    requires keys != [] && Occurrences(keys, keys[0]) <= U32_MAX && CountsOf(counts, keys)
    ensures CountsOf(Unbump(counts, keys[0]), keys[1..])
  {
    forall k ensures Occurrences(keys, k) == Occurrences(keys[1..], k) + (if k == keys[0] then 1 else 0)
                     && (k in keys[1..] <==> Occurrences(keys[1..], k) > 0) {
      OccurrencesOfRest(keys, k);
    }
    assert keys == [keys[0]] + keys[1..];
  }

  lemma LastOfPush(calls: seq<Hash>, hash: Hash, max: nat)
    requires 1 <= max
    ensures var window := LastN(max, calls);
            LastN(max, calls + [hash]) == if |window| < max then window + [hash] else window[1..] + [hash]
  {
  }

  lemma EvictOne(window: seq<Hash>, counts: map<Hash, U32>, hash: Hash, max: nat)
    requires |window| == max >= 1
    ensures Evict(window + [hash], counts, max) == (window[1..] + [hash], Unbump(counts, window[0]))
  {
    assert (window + [hash])[1..] == window[1..] + [hash];
  }

  /** The call evicts a fingerprint whose count has saturated, and is not of that fingerprint itself. */
  predicate Loses(calls: seq<Hash>, hash: Hash, max: nat)
    requires 1 <= max
  {
    var window := LastN(max, calls);
    |window| == max && Occurrences(window, window[0]) > U32_MAX && hash != window[0]
  }

  /** Evicting from a saturated count takes one too many, unless the same fingerprint comes back at once. */
  lemma SaturatedPush(counts: map<Hash, U32>, window: seq<Hash>, hash: Hash)
    requires window != [] && CountsOf(counts, window) && Occurrences(window, window[0]) > U32_MAX
    ensures CountsOf(Bump(Unbump(counts, window[0]), hash), window[1..] + [hash]) <==> hash == window[0]
  {
    var first, rest := window[0], window[1..];
    var after := rest + [hash];
    forall k ensures Occurrences(window, k) == Occurrences(rest, k) + (if k == first then 1 else 0)
                     && (k in rest <==> Occurrences(rest, k) > 0) {
      OccurrencesOfRest(window, k);
    }
    assert forall k :: Occurrences(after, k) == Occurrences(rest, k) + if k == hash then 1 else 0;
    assert forall k :: k in after <==> k in rest || k == hash;
    assert window == [first] + rest;
  }

  lemma PushWindow(s: ToolState, calls: seq<Hash>, hash: Hash, max: nat)
    requires 1 <= max && s.window == LastN(max, calls) && CountsOf(s.counts, s.window)
    ensures Push(s, hash, max).window == LastN(max, calls + [hash])
    ensures CountsOf(Push(s, hash, max).counts, Push(s, hash, max).window) <==> !Loses(calls, hash, max)
  {
    LastOfPush(calls, hash, max);
    if |s.window| < max {
      BumpCounts(s.counts, s.window, hash);
    } else {
      EvictOne(s.window, s.counts, hash, max);
      if Occurrences(s.window, s.window[0]) <= U32_MAX {
        UnbumpCounts(s.counts, s.window);
        BumpCounts(Unbump(s.counts, s.window[0]), s.window[1..], hash);
      } else {
        SaturatedPush(s.counts, s.window, hash);
      }
    }
  }

  /** The window is the last observations, and the counts are the multiplicities in it. */
  ghost predicate Exact(events: seq<ToolEvent>, max: nat) {
    var s := RunOf(events, max).state;
    s.window == LastN(max, Calls(events)) && CountsOf(s.counts, s.window) && CountsOf(s.outputs, Outputs(events))
  }

  /** Observation `k` makes the counts wrong. */
  predicate LosesAt(events: seq<ToolEvent>, k: nat, max: nat)
    requires k < |events| && 1 <= max
  {
    events[k].Call? && Loses(Calls(events[..k]), events[k].hash, max)
  }

  ghost predicate NothingLost(events: seq<ToolEvent>, max: nat)
    requires 1 <= max
  {
    forall k :: 0 <= k < |events| ==> !LosesAt(events, k, max)
  }

  lemma ExactStep(before: seq<ToolEvent>, e: ToolEvent, max: nat)
    requires 1 <= max && Exact(before, max)
    ensures Exact(before + [e], max) <==> !LosesAt(before + [e], |before|, max)
  {
    var events := before + [e];
    assert events[..|before|] == before;
    var s := RunOf(before, max).state;
    if e.Call? {
      PushWindow(s, Calls(before), e.hash, max);
    } else {
      BumpCounts(s.outputs, Outputs(before), e.hash);
    }
  }

  /** Exact now and after every earlier observation. */
  ghost predicate AlwaysExact(events: seq<ToolEvent>, max: nat) {
    Exact(events, max) && (events == [] || AlwaysExact(events[..|events| - 1], max))
  }

  lemma NothingLostSnoc(before: seq<ToolEvent>, e: ToolEvent, max: nat)
    requires 1 <= max
    ensures NothingLost(before + [e], max) <==> NothingLost(before, max) && !LosesAt(before + [e], |before|, max)
  {
    var events := before + [e];
    assert forall n :: 0 <= n <= |before| ==> events[..n] == before[..n];
    assert forall k :: 0 <= k < |before| ==> (LosesAt(events, k, max) <==> LosesAt(before, k, max));
  }

  /** For a history of at least one, the window and the counts are exact after every observation, exactly
      until a call evicts another fingerprint whose 32-bit count has saturated. */
  lemma {:induction false} WindowIsExact(events: seq<ToolEvent>, max: nat)
    requires 1 <= max
    ensures AlwaysExact(events, max) <==> NothingLost(events, max)
  {
    if events == [] {
      assert Exact(events, max);
    } else {
      var before, e := events[..|events| - 1], events[|events| - 1];
      assert events == before + [e];
      WindowIsExact(before, max);
      NothingLostSnoc(before, e, max);
      if AlwaysExact(before, max) {
        ExactStep(before, e, max);
      }
    }
  }

  /** In particular while no window is longer than the counts can count. */
  lemma ShortWindowsAreExact(events: seq<ToolEvent>, max: nat)
    requires 1 <= max && Min(max, |events|) <= U32_MAX
    ensures NothingLost(events, max)
  {
    forall k | 0 <= k < |events| ensures !LosesAt(events, k, max) {
      var window := LastN(max, Calls(events[..k]));
      FewerCalls(events[..k]);
      if window != [] {
        assert Occurrences(window, window[0]) <= |multiset(window)| == |window|;
      }
    }
  }

  lemma {:induction false} FewerCalls(events: seq<ToolEvent>)
    ensures |Calls(events)| <= |events|
  {
    if events != [] { FewerCalls(events[..|events| - 1]); }
  }

  /** Every distinct call, counted once. */
  ghost predicate OnceEach(counts: map<Hash, U32>, calls: seq<Hash>) {
    (forall k :: k in counts <==> k in calls) && (forall k :: k in counts ==> counts[k] == 1)
  }

  lemma PushNothing(s: ToolState, calls: seq<Hash>, hash: Hash)
    requires s.window == [] && OnceEach(s.counts, calls)
    ensures Push(s, hash, 0).window == [] && OnceEach(Push(s, hash, 0).counts, calls + [hash])
  {
    assert s.window + [hash] == [hash] && [hash][1..] == [];
    assert Evict([hash], s.counts, 0) == Evict([], Unbump(s.counts, hash), 0);
  }

  lemma {:induction false} EmptyHistoryRun(events: seq<ToolEvent>)
    ensures var s := RunOf(events, 0).state;
            s.window == [] && OnceEach(s.counts, Calls(events)) && CountsOf(s.outputs, Outputs(events))
  {
    if events != [] {
      var before, e := events[..|events| - 1], events[|events| - 1];
      EmptyHistoryRun(before);
      var s := RunOf(before, 0).state;
      if e.Call? {
        PushNothing(s, Calls(before), e.hash);
      } else {
        BumpCounts(s.outputs, Outputs(before), e.hash);
      }
    }
  }

  /** With a history of zero the window stays empty but every distinct fingerprint stays counted, so
      the counts are exact only while there is no call. */
  lemma EmptyHistoryLeaks(events: seq<ToolEvent>)
    ensures OnceEach(RunOf(events, 0).state.counts, Calls(events))
    ensures Exact(events, 0) <==> Calls(events) == []
  {
    EmptyHistoryRun(events);
    if Calls(events) != [] {
      assert Calls(events)[0] in RunOf(events, 0).state.counts;
    }
  }

  /** The signals that the last observation calls for, from the observations alone. */
  function Expected(events: seq<ToolEvent>, max: nat): seq<Signal>
    requires events != []
  {
    match events[|events| - 1]
    case Call(hash) =>
      var window := LastN(max, Calls(events));
      var n := Min(Occurrences(window, hash), U32_MAX);
      (if n >= 3 then [Signal(FingerprintRepeat, hash, n, RepeatRisk(n))] else [])
      + (if Alternates(window) then [Signal(AlternationCycle, window[|window| - 4], 2, 0.75)] else [])
    case Output(hash) =>
      var n := Min(Occurrences(Outputs(events), hash), U32_MAX);
      if n >= 2 then [Signal(OutputBlockedEcho, 0, n, EchoRisk(n))] else []
  }

  function AllExpected(events: seq<ToolEvent>, max: nat): seq<Signal> {
    if events == [] then [] else AllExpected(events[..|events| - 1], max) + Expected(events, max)
  }

  lemma ExpectedIsEmitted(events: seq<ToolEvent>, max: nat)
    requires events != [] && 1 <= max && Exact(events, max)
    ensures RunOf(events, max).emitted == Expected(events, max)
  {
    var before, e := events[..|events| - 1], events[|events| - 1];
    if e.Call? {
      assert e.hash in LastN(max, Calls(before) + [e.hash]);
    } else {
      assert e.hash in Outputs(before) + [e.hash];
    }
  }

  /** What the observations emit is what they call for, and so is the whole signal log. */
  lemma {:induction false} SignalsAreExact(events: seq<ToolEvent>, max: nat)
    requires 1 <= max && NothingLost(events, max)
    ensures events != [] ==> RunOf(events, max).emitted == Expected(events, max)
    ensures AllEmitted(events, max) == AllExpected(events, max)
  {
    if events != [] {
      var before, e := events[..|events| - 1], events[|events| - 1];
      assert events == before + [e];
      NothingLostSnoc(before, e, max);
      SignalsAreExact(before, max);
      WindowIsExact(events, max);
      ExpectedIsEmitted(events, max);
    }
  }
}
