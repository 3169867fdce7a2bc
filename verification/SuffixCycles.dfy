/** Repeated suffixes of the recent characters of a channel. */
module SuffixCycles {
  import opened Machine
  import opened Wrappers
  import opened LoopSetup
  import opened TokenScanner

  const MIN_UNIT: nat := 4
  const MAX_UNIT: nat := 64

  // ---------------------------------------------------------------- copies at the end

  function Repeat(unit: string, k: nat): string {
    if k == 0 then "" else Repeat(unit, k - 1) + unit
  }

  predicate EndsWith(chars: string, s: string) {
    |s| <= |chars| && chars[|chars| - |s|..] == s
  }

  /** How many copies of `unit` end the buffer. */
  function Copies(chars: string, unit: string): nat
    requires unit != ""
    decreases |chars|
  {
    if EndsWith(chars, unit) then 1 + Copies(chars[..|chars| - |unit|], unit) else 0
  }

  lemma EndsWithBoth(chars: string, r: string, unit: string)
    ensures EndsWith(chars, r + unit) <==> EndsWith(chars, unit) && EndsWith(chars[..|chars| - |unit|], r)
  {
    if |r| + |unit| <= |chars| {
      var n, k := |chars| - |unit|, |chars| - |unit| - |r|;
      assert chars[k..] == chars[k..n] + chars[n..];
      assert chars[..n][k..] == chars[k..n];
      assert chars[k..] == r + unit ==> chars[k..n] == (r + unit)[..|r|] && chars[n..] == (r + unit)[|r|..];
    }
  }

  lemma {:induction false} CopiesAreMaximal(chars: string, unit: string, k: nat)
    requires unit != ""
    ensures EndsWith(chars, Repeat(unit, k)) <==> k <= Copies(chars, unit)
    decreases k
  {
    if k > 0 {
      EndsWithBoth(chars, Repeat(unit, k - 1), unit);
      if EndsWith(chars, unit) {
        CopiesAreMaximal(chars[..|chars| - |unit|], unit, k - 1);
      }
    }
  }

  lemma {:induction false} CopiesFit(chars: string, unit: string)
    requires unit != ""
    ensures |unit| * Copies(chars, unit) <= |chars|
    decreases |chars|
  {
    if EndsWith(chars, unit) { CopiesFit(chars[..|chars| - |unit|], unit); }
  }

  // ---------------------------------------------------------------- the search

  datatype Cycle = Cycle(unit: string, repetitions: nat)

  function LastUnit(chars: string, len: nat): string
    requires len <= |chars|
  {
    chars[|chars| - len..]
  }

  /** The buffer ends in at least `minimum` copies of its last `len` characters. */
  predicate Cycles(chars: string, len: nat, minimum: nat)
    requires len >= 1
  {
    len <= |chars| && Copies(chars, LastUnit(chars, len)) >= minimum
  }

  function CycleFrom(chars: string, minimum: nat, len: nat): Option<Cycle>
    requires len >= 1
    decreases MAX_UNIT + 1 - len
  {
    if len > MAX_UNIT then None
    else if Cycles(chars, len, minimum) then Some(Cycle(LastUnit(chars, len), Copies(chars, LastUnit(chars, len))))
    else CycleFrom(chars, minimum, len + 1)
  }

  function FindCycle(chars: string, minimum: nat): Option<Cycle> {
    CycleFrom(chars, minimum, MIN_UNIT)
  }

  lemma {:induction false} CycleFromIsSmallest(chars: string, minimum: nat, len: nat)
    requires len >= 1
    ensures match CycleFrom(chars, minimum, len)
            case None => forall u :: len <= u <= MAX_UNIT ==> !Cycles(chars, u, minimum)
            case Some(c) =>
              && len <= |c.unit| <= MAX_UNIT && Cycles(chars, |c.unit|, minimum)
              && c.unit == LastUnit(chars, |c.unit|) && c.repetitions == Copies(chars, c.unit)
              && forall u :: len <= u < |c.unit| ==> !Cycles(chars, u, minimum)
    decreases MAX_UNIT + 1 - len
  {
    if len <= MAX_UNIT && !Cycles(chars, len, minimum) { CycleFromIsSmallest(chars, minimum, len + 1); }
  }

  lemma CopiesCycle(chars: string, unit: string, minimum: nat)
    requires minimum >= 1 && unit != "" && EndsWith(chars, Repeat(unit, minimum))
    ensures Cycles(chars, |unit|, minimum)
  {
    CopiesAreMaximal(chars, unit, minimum);
    assert unit == LastUnit(chars, |unit|);
  }

  /** No unit of these lengths ends the buffer often enough. */
  ghost predicate NoneRepeats(chars: string, minimum: nat, lo: nat, hi: nat) {
    forall unit :: lo <= |unit| < hi ==> !EndsWith(chars, Repeat(unit, minimum))
  }

  lemma NoCyclesNoneRepeats(chars: string, minimum: nat, lo: nat, hi: nat)
    requires minimum >= 1 && lo >= 1 && forall u :: lo <= u < hi ==> !Cycles(chars, u, minimum)
    ensures NoneRepeats(chars, minimum, lo, hi)
  {
    forall unit: string | lo <= |unit| < hi ensures !EndsWith(chars, Repeat(unit, minimum)) {
      if EndsWith(chars, Repeat(unit, minimum)) {
        CopiesCycle(chars, unit, minimum);
      }
    }
  }

  /** The unit found is the shortest of 4 to 64 characters whose copies end the buffer often enough,
      with all its copies counted; none is found exactly when there is none. */
  lemma FindCycleIsSmallest(chars: string, minimum: nat)
    requires minimum >= 1
    ensures match FindCycle(chars, minimum)
            case None => NoneRepeats(chars, minimum, MIN_UNIT, MAX_UNIT + 1)
            case Some(c) =>
              && MIN_UNIT <= |c.unit| <= MAX_UNIT && c.repetitions >= minimum
              && EndsWith(chars, Repeat(c.unit, c.repetitions)) && !EndsWith(chars, Repeat(c.unit, c.repetitions + 1))
              && NoneRepeats(chars, minimum, MIN_UNIT, |c.unit|)
  {
    CycleFromIsSmallest(chars, minimum, MIN_UNIT);
    match FindCycle(chars, minimum)
    case None => NoCyclesNoneRepeats(chars, minimum, MIN_UNIT, MAX_UNIT + 1);
    case Some(c) =>
      NoCyclesNoneRepeats(chars, minimum, MIN_UNIT, |c.unit|);
      CopiesAreMaximal(chars, c.unit, c.repetitions);
      CopiesAreMaximal(chars, c.unit, c.repetitions + 1);
  }

  /** A threshold above 1024 can never be met in a buffer of 4096 characters. */
  lemma HighThresholdNeverFires(chars: string, minimum: nat)
    requires |chars| <= MAX_RECENT_CHARS && minimum > MAX_RECENT_CHARS / MIN_UNIT
    ensures FindCycle(chars, minimum).None?
  {
    CycleFromIsSmallest(chars, minimum, MIN_UNIT);
    forall u | MIN_UNIT <= u <= MAX_UNIT ensures !Cycles(chars, u, minimum) {
      MulMonotone(minimum, MIN_UNIT, u);
      TooShort(chars, minimum, u);
    }
  }

  lemma TooShort(chars: string, minimum: nat, len: nat)
    requires len >= 1 && |chars| < len * minimum
    ensures !Cycles(chars, len, minimum)
  {
    if len <= |chars| {
      var k := Copies(chars, LastUnit(chars, len));
      CopiesFit(chars, LastUnit(chars, len));
      assert len * k < len * minimum;
      assert k < minimum by {
        if minimum <= k {
          MulMonotone(len, minimum, k);
          assert false;
        }
      }
    }
  }

  lemma LongEnough(minimum: nat, len: nat)
    requires minimum >= 1
    ensures len <= len * minimum
  {
    MulMonotone(len, 1, minimum);
  }

  method SuffixCycle(chars: string, minimum: nat) returns (cycle: Option<Cycle>)
    requires minimum >= 1
    ensures cycle == FindCycle(chars, minimum)
  {
    var len := MIN_UNIT;
    while len <= MAX_UNIT
      invariant MIN_UNIT <= len && FindCycle(chars, minimum) == CycleFrom(chars, minimum, len)
    {
      var required := len * minimum;
      if |chars| < required {
        TooShort(chars, minimum, len);
      } else {
        LongEnough(minimum, len);
        var suffix := LastUnit(chars, len);
        var repetitions := CountCopies(chars, suffix);
        if repetitions >= minimum {
          return Some(Cycle(suffix, repetitions));
        }
      }
      len := len + 1;
    }
    return None;
  }

  /** Counts the copies at the end, comparing block by block towards the front. */
  method CountCopies(chars: string, suffix: string) returns (repetitions: nat)
    requires suffix != "" && EndsWith(chars, suffix)
    ensures repetitions == Copies(chars, suffix)
  {
    var len := |suffix|;
    repetitions := 1;
    ghost var rest := chars[..|chars| - len];
    while |chars| >= len * (repetitions + 1)
      invariant |rest| + len * repetitions == |chars| && rest == chars[..|rest|]
      invariant Copies(chars, suffix) == repetitions + Copies(rest, suffix)
      decreases |rest|
    {
      assert len * (repetitions + 1) == len * repetitions + len;
      var start := |chars| - len * (repetitions + 1);
      var end := start + len;
      assert chars[start..end] == rest[|rest| - len..];
      if chars[start..end] != suffix {
        break;
      }
      rest := rest[..|rest| - len];
      repetitions := repetitions + 1;
    }
    assert len * (repetitions + 1) == len * repetitions + len;
  }

  // ---------------------------------------------------------------- the recent characters

  function LowerAll(tables: TextTables, text: string): string {
    if text == [] then [] else LowerAll(tables, text[..|text| - 1]) + tables.lower(text[|text| - 1])
  }

  /** The buffer is the last 4096 characters of the lower-cased text, however the text arrives. */
  method ObserveRecentChars(tables: TextTables, recent: string, fragment: string) returns (recent': string)
    requires |recent| <= MAX_RECENT_CHARS
    ensures recent' == LastN(MAX_RECENT_CHARS, recent + LowerAll(tables, fragment))
  {
    recent' := recent;
    assert recent + LowerAll(tables, "") == recent;
    for i := 0 to |fragment|
      invariant recent' == LastN(MAX_RECENT_CHARS, recent + LowerAll(tables, fragment[..i]))
    {
      assert fragment[..i + 1][..i] == fragment[..i];
      var lower := tables.lower(fragment[i]);
      LastOfLast(MAX_RECENT_CHARS, recent + LowerAll(tables, fragment[..i]), lower);
      assert recent + LowerAll(tables, fragment[..i + 1]) == recent + LowerAll(tables, fragment[..i]) + lower;
      recent' := LastN(MAX_RECENT_CHARS, recent' + lower);
    }
    assert fragment[..|fragment|] == fragment;
  }

  lemma LastOfLast(n: nat, a: string, b: string)
    ensures LastN(n, LastN(n, a) + b) == LastN(n, a + b)
  {
  }
}
