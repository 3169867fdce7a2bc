/** Memory thresholds of the host guardian. */
module Thresholds {
  import opened Machine
  import opened Wrappers

  const MIB: nat := 1024 * 1024
  const GIB: nat := 1024 * MIB

  datatype Limits = Limits(stopGib: U64, reserveMib: U64, thresholdBytes: U64, reserveBytes: U64)

  /** The limits in bytes, unless a unit is zero or does not fit 64 bits. */
  function NewLimits(stopGib: U64, reserveMib: U64): Option<Limits> {
    if stopGib == 0 || reserveMib == 0 then None
    else if stopGib * GIB > U64_MAX || reserveMib * MIB > U64_MAX then None
    else Some(Limits(stopGib, reserveMib, stopGib * GIB, reserveMib * MIB))
  }

  predicate ShouldShed(available: U64, limits: Limits) {
    available <= limits.thresholdBytes
  }

  predicate ShouldRearm(available: U64, limits: Limits) {
    available >= SatAdd64(limits.thresholdBytes, limits.reserveBytes)
  }

  /** A threshold in whole GiB is never the largest 64-bit value. */
  lemma ThresholdBelowMax(gib: U64)
    requires gib * GIB <= U64_MAX
    ensures gib * GIB < U64_MAX
  {
    assert U64_MAX == 17_179_869_183 * GIB + (GIB - 1);
  }

  /** No reading both sheds and rearms, even when the rearm mark saturates. */
  lemma ShedExcludesRearm(stopGib: U64, reserveMib: U64, available: U64)
    requires NewLimits(stopGib, reserveMib).Some?
    ensures var limits := NewLimits(stopGib, reserveMib).value;
            !(ShouldShed(available, limits) && ShouldRearm(available, limits))
  {
    ThresholdBelowMax(stopGib);
  }

  /** Which settings have limits, and what they are in bytes. */
  lemma LimitsExactly(stopGib: U64, reserveMib: U64)
    ensures var limits := NewLimits(stopGib, reserveMib);
            && (limits.Some? <==> 1 <= stopGib <= 17_179_869_183 && 1 <= reserveMib <= 17_592_186_044_415)
            && (limits.Some? ==>
                  limits.value.thresholdBytes == stopGib * 1_073_741_824 && limits.value.reserveBytes == reserveMib * 1_048_576)
  {
  }
}
