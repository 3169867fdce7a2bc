/** Machine integers: ranges, saturating arithmetic and truncating division. */
module Machine {
  const U32_MAX: nat := 0xFFFF_FFFF
  const U64_MAX: nat := 0xFFFF_FFFF_FFFF_FFFF
  const I32_MAX: int := 0x7FFF_FFFF
  const I32_MIN: int := -0x8000_0000
  const I64_MAX: int := 0x7FFF_FFFF_FFFF_FFFF
  const I64_MIN: int := -0x8000_0000_0000_0000

  type U32 = n: nat | n <= U32_MAX
  type U64 = n: nat | n <= U64_MAX
  type I32 = n: int | I32_MIN <= n <= I32_MAX
  type I64 = n: int | I64_MIN <= n <= I64_MAX

  function Min(a: int, b: int): int {
    if a < b then a else b
  }

  function Clamp(n: nat): U64 {
    if n <= U64_MAX then n else U64_MAX
  }

  function SatAdd32(a: U32, b: nat): U32 {
    if a + b <= U32_MAX then a + b else U32_MAX
  }

  function SatAdd64(a: U64, b: nat): U64 {
    if a + b <= U64_MAX then a + b else U64_MAX
  }

  function SatMul64(a: U64, b: U64): U64 {
    if a * b <= U64_MAX then a * b else U64_MAX
  }

  function SatAddI64(a: I64, b: I64): I64 {
    if a + b > I64_MAX then I64_MAX else if a + b < I64_MIN then I64_MIN else a + b
  }

  /** Division as the machine does it, toward zero. */
  function TruncDiv(a: int, b: int): int
    requires b > 0
  {
    if a >= 0 then a / b else -((-a) / b)
  }

  lemma MulMonotone(a: nat, b: nat, c: nat)
    requires b <= c
    ensures a * b <= a * c && b * a <= c * a
  {
    assert a * c == a * b + a * (c - b);
  }
}
