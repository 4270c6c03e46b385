/**
  Fixed-width kernel integer types, the error numbers the dust target
  returns, and small wrapper datatypes shared by the other modules.
 */
module KernelTypes {

  /** 2^64: one more than the largest `unsigned long long` / `sector_t`. */
  const U64_LIMIT: int := 0x1_0000_0000_0000_0000

  /** `unsigned long long` and `sector_t`. */
  type u64 = x: int | 0 <= x < 0x1_0000_0000_0000_0000

  /** `unsigned char`, the type of a bad block's write-fail count. */
  type u8 = x: int | 0 <= x < 256

  /** Linux error numbers; the target returns their negations. */
  const EINVAL: int := 22
  const ENOMEM: int := 12

  datatype Option<T> = None | Some(value: T)

  datatype Result<T, E> = Ok(value: T) | Err(error: E)

  /** `x++` on an unsigned 64-bit counter: wraps from 2^64 - 1 to 0. */
  function Inc64(x: u64): (r: u64)
    ensures r == (x + 1) % U64_LIMIT
  {
    if x == U64_LIMIT - 1 then 0 else x + 1
  }

  /** `x--` on an unsigned 64-bit counter: wraps from 0 to 2^64 - 1. */
  function Dec64(x: u64): (r: u64)
    ensures r == (x - 1) % U64_LIMIT
  {
    if x == 0 then U64_LIMIT - 1 else x - 1
  }

  /** `1 << n`, unbounded. */
  function Pow2(n: nat): (r: nat)
    ensures r >= 1
  {
    if n == 0 then 1 else 2 * Pow2(n - 1)
  }
}
