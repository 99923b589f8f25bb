/** Fixed-width integers and the failure types shared by every module. */
module Prelude {
  const PAGE_SIZE: nat := 4096
  const U64_LIMIT: nat := 0x1_0000_0000_0000_0000
  const USER_LIMIT: nat := 0x8000_0000_0000

  /** An unsigned 64-bit machine integer. */
  type U64 = n: nat | n < 0x1_0000_0000_0000_0000

  type Byte = n: nat | n < 256

  datatype Option<+T> = None | Some(value: T)

  datatype Result<+T, +E> = Ok(value: T) | Err(error: E)

  function Min(a: int, b: int): int {
    if a < b then a else b
  }

  function Max(a: int, b: int): int {
    if a < b then b else a
  }

  /** Rust's `checked_add` on u64. */
  function CheckedAdd(a: U64, b: U64): Option<U64> {
    if a + b < U64_LIMIT then Some(a + b) else None
  }

  ghost predicate NoDuplicates<T>(s: seq<T>) {
    forall i, j :: 0 <= i < j < |s| ==> s[i] != s[j]
  }

  /** Division by d is determined by a remainder below d. */
  lemma Quotient(x: nat, d: nat, q: nat, r: nat)
    requires r < d && x == d * q + r
    ensures x / d == q && x % d == r
  {
    MultipleBounds(d, x / d - q);
    assert d * (x / d - q) == r - x % d;
  }

  lemma MultipleBounds(d: nat, e: int)
    ensures e >= 1 ==> d * e >= d
    ensures e <= -1 ==> d * e <= 0 - d
  {
  }
}
