/** Shared vocabulary: failure-carrying results, Go's fixed-width integers
    and bytes. */
module Common {

  /** An optional value, for lookups that may find nothing. */
  datatype Option<+T> = None | Some(value: T)

  /** A value or the error that prevented computing it. */
  datatype Result<+T, +E> = Ok(value: T) | Err(error: E) {
    predicate IsFailure() { Err? }
  }

  /** Bounds of Go's `int64` (and of `int` on 64-bit platforms). */
  const MinInt64: int := -0x8000_0000_0000_0000
  const MaxInt64: int := 0x7fff_ffff_ffff_ffff
  const TwoTo64: int := 0x1_0000_0000_0000_0000

  type int64 = x: int | MinInt64 <= x <= MaxInt64

  type byte = b: int | 0 <= b < 256

  const NewlineByte: byte := 10
  const CarriageReturnByte: byte := 13

  /** Two's-complement wrap-around of Go's 64-bit signed arithmetic. */
  function Wrap64(x: int): (r: int64)
    ensures (r - x) % TwoTo64 == 0
    ensures MinInt64 <= x <= MaxInt64 ==> r == x
  {
    var m := (x - MinInt64) % TwoTo64;
    m + MinInt64
  }

  /** The value stored under `k`, or `d` when `k` is absent. */
  function GetOr<K, V>(m: map<K, V>, k: K, d: V): (r: V)
    ensures k in m ==> r == m[k]
    ensures k !in m ==> r == d
  {
    if k in m then m[k] else d
  }
}
