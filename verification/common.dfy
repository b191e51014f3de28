/** Fixed-width integer types and sequence helpers shared by every module.
    C++ integers wrap; Dafny's do not, so every wrap in the model is written
    out with one of the limits below. */
module Common {

  /** One `uint8_t` cell of a byte buffer. */
  type byte = x: int | 0 <= x < 0x100

  /** 2^32: the modulus of `uint32_t` arithmetic. */
  const U32_LIMIT: int := 0x1_0000_0000

  /** A `uint32_t` value. */
  type u32 = x: int | 0 <= x < U32_LIMIT

  /** 2^64: the modulus of `size_t` arithmetic on the 64-bit host. */
  const SIZE_LIMIT: int := 0x1_0000_0000_0000_0000

  /** `GB_1` of common.h:7. */
  const GB_1: int := 1024 * 1024 * 1024

  datatype Option<T> = None | Some(value: T)

  function Min(a: int, b: int): int {
    if a <= b then a else b
  }

  /** The same elements in the opposite order. */
  function Reverse<T>(s: seq<T>): (r: seq<T>)
    ensures |r| == |s|
    ensures forall i :: 0 <= i < |s| ==> r[i] == s[|s| - 1 - i]
  {
    seq(|s|, i requires 0 <= i < |s| => s[|s| - 1 - i])
  }

  lemma ReverseReverse<T>(s: seq<T>)
    ensures Reverse(Reverse(s)) == s
  {
  }

  /** Reversing a concatenation reverses the order of the parts as well as each part. */
  lemma ReverseAppend<T>(a: seq<T>, b: seq<T>)
    ensures Reverse(a + b) == Reverse(b) + Reverse(a)
  {
  }

  /** `n` zero bytes, as `memset( p, 0, n )` leaves them. */
  function Zeros(n: nat): (r: seq<byte>)
    ensures |r| == n
    ensures forall i :: 0 <= i < n ==> r[i] == 0
  {
    seq(n, _ => 0)
  }
}
