/** What the loop detector is configured with, and what it reports. */
module LoopSetup {
  import opened Machine
  import opened Wrappers
  import opened CappedCounts

  const MAX_PENDING_LINE_BYTES: nat := 8 * 1024
  const MAX_RECENT_CHARS: nat := 4 * 1024
  const MAX_TOKEN_BYTES: nat := 128
  const MAX_SEMANTIC_TOKEN_BYTES: nat := 64
  const LINE_COUNT_CAP: nat := 4_096
  const WINDOW_COUNT_CAP: nat := 8_192

  /** Hashing, line and token normalisation and the Unicode tables, which the detector only calls. */
  datatype TextTables = TextTables(
    lineHash: string -> Option<Hash>,
    hashText: string -> Hash,
    hashWords: seq<Hash> -> Hash,
    semanticHash: string -> Option<Hash>,
    lower: char -> string,
    alphanumeric: char -> bool)

  datatype LoopConfig = LoopConfig(
    lineThreshold: U32,
    windowSize: U32,
    windowThreshold: U32,
    suffixThreshold: U32,
    lowProgressMinBytes: U64,
    lowProgressRatioPercent: U32,
    overlapMultiplier: U32,
    semanticEnabled: bool,
    similarityThresholdPercent: U32,
    semanticWindowTokens: U32,
    semanticMinimumTokens: U32,
    semanticHistoryWindows: U32,
    semanticRepeatWindows: U32)

  /** Hashes that repeat in the request itself. */
  datatype InputProfile = InputProfile(lines: set<Hash>, windows: set<Hash>)

  datatype Setup = Setup(tables: TextTables, config: LoopConfig, profile: InputProfile)

  datatype Reason = RepeatedLine | RepeatedTokenWindow | SuffixCycle | ApproximateRepetition | LowProgressGrowth

  datatype Detection = Detection(reason: Reason, observed: nat, threshold: nat, overlap: bool)

  /** A threshold, multiplied for what repeats in the request itself, as far as 64 bits go. */
  function AdjustedThreshold(config: LoopConfig, threshold: U64, overlap: bool): (adjusted: U64)
    ensures adjusted == Clamp(threshold * if overlap then config.overlapMultiplier else 1)
  {
    if overlap then SatMul64(threshold, config.overlapMultiplier) else threshold
  }
}
