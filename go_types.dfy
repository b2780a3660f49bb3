/** Go's fixed-width integer types, their wrap-around conversions, and the
    Option/Result wrappers the rest of the model uses for nil results and
    run-time panics. */
module GoTypes {

  /** Go's `byte` (uint8). */
  type byte = b: int | 0 <= b < 0x100

  const Two63: int := 0x8000_0000_0000_0000
  const Two64: int := 0x1_0000_0000_0000_0000

  /** Go's `uint64`. */
  type uint64 = x: int | 0 <= x < Two64

  /** Go's `int64` (also Go's `int` on a 64-bit host). */
  type int64 = x: int | -Two63 <= x < Two63

  /** A Go value that may be nil. */
  datatype Option<T> = None | Some(value: T)

  /** The outcome of Go code that may panic at run time. */
  datatype Result<T> = Ok(value: T) | Panic

  /** Two's-complement wrap-around of an exact integer into int64: the value
      Go's int64 `+`, `*` and the conversion `int64(u)` of a uint64 produce. */
  function Wrap64(x: int): (r: int64)
    ensures (r - x) % Two64 == 0
    ensures -Two63 <= x < Two63 ==> r == x
  {
    var m := x % Two64;
    if m < Two63 then m else m - Two64
  }

  function Min(a: int, b: int): int { if a <= b then a else b }

  /** `n` zero bytes: what Go's `make([]byte, n)` holds before anything is copied in. */
  function Zeros(n: nat): (z: seq<byte>)
    ensures |z| == n && forall i :: 0 <= i < n ==> z[i] == 0
  {
    seq(n, _ => 0)
  }
}
