/** Shared vocabulary: Go's uint64 arithmetic and an optional value. */
module Base {

  const TwoTo64: int := 0x1_0000_0000_0000_0000
  const MaxU64: int := TwoTo64 - 1

  /** Values of Go's `uint64`. */
  type u64 = x: int | 0 <= x < TwoTo64

  /** Go's uint64 `+`, `-` and `*` are computed modulo 2^64; `Wrap` reduces an exact integer result. */
  function Wrap(x: int): (r: u64)
    ensures 0 <= x < TwoTo64 ==> r == x
    ensures -TwoTo64 <= x < 0 ==> r == x + TwoTo64
    ensures (r - x) % TwoTo64 == 0
  {
    x % TwoTo64
  }

  datatype Option<T> = None | Some(value: T)
}
