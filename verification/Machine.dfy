/** Machine integers and the failure datatypes shared by every component. */
module Machine {
  const U64_MAX: int := 0xFFFF_FFFF_FFFF_FFFF
  const I64_MAX: int := 0x7FFF_FFFF_FFFF_FFFF
  const I64_MIN: int := -0x8000_0000_0000_0000

  /** `u64` and, on the 64-bit target, `usize`. */
  type U64 = x: int | 0 <= x <= U64_MAX

  const PAGE_SIZE: int := 4096
  const MAX_MEMORY_RANGES: nat := 256

  datatype Option<+T> = None | Some(value: T)

  datatype Result<+T, +E> = Ok(value: T) | Err(error: E)

  function Min(a: int, b: int): int { if a <= b then a else b }

  function Max(a: int, b: int): int { if a >= b then a else b }

  function SaturatingAdd(a: U64, b: U64): U64 { if a + b <= U64_MAX then a + b else U64_MAX }

  function SaturatingMul(a: U64, b: U64): U64 { if a * b <= U64_MAX then a * b else U64_MAX }

  lemma {:induction false} MultiplesApart(m: int, n: int, d: int)
    requires m < n && d > 0
    ensures n * d >= m * d + d
    decreases n - m
  {
    assert n * d == (n - 1) * d + d;
    if m < n - 1 { MultiplesApart(m, n - 1, d); }
  }

  lemma ProductOrder(a: int, b: int, c: int)
    requires c > 0
    ensures a <= b <==> a * c <= b * c
    ensures a < b <==> a * c + c <= b * c
  {
    if a < b {
      MultiplesApart(a, b, c);
    } else if b < a {
      MultiplesApart(b, a, c);
    }
  }
}
