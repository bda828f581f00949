/** Machine-level vocabulary shared by the codec: bytes, unsigned 64-bit integers,
    powers of 128 (one varint group each) and concatenation of byte frames. */
module Bytes {

  /** An octet, Rust's `u8`. */
  type byte = x: int | 0 <= x < 0x100

  /** 2^64, one more than the largest `u64`. */
  const U64_LIMIT: int := 0x1_0000_0000_0000_0000

  /** Rust's `u64`. */
  type u64 = x: int | 0 <= x < 0x1_0000_0000_0000_0000

  /** Rust's `i32`. */
  type i32 = x: int | -0x8000_0000 <= x < 0x8000_0000

  /** 128^n: the weight of the n-th seven-bit group of a varint (a shift by 7 * n bits). */
  function Pow128(n: nat): (r: nat)
    ensures r >= 1
  {
    if n == 0 then 1 else 0x80 * Pow128(n - 1)
  }

  lemma {:induction false} Pow128Monotone(m: nat, n: nat)
    requires m <= n
    ensures Pow128(m) <= Pow128(n)
  {
    if m < n {
      Pow128Monotone(m, n - 1);
    }
  }

  /** 128^9 = 2^63 and 128^10 > 2^64: the tenth group can hold one bit of a `u64`, an eleventh none. */
  lemma Pow128Limits()
    ensures Pow128(9) == 0x8000_0000_0000_0000
    ensures 2 * Pow128(9) == U64_LIMIT
    ensures Pow128(10) > U64_LIMIT
  {
  }

  /** The concatenation of a list of byte frames, in order. */
  function Flatten(parts: seq<seq<byte>>): seq<byte>
  {
    if parts == [] then [] else parts[0] + Flatten(parts[1..])
  }

  lemma {:induction false} FlattenSnoc(parts: seq<seq<byte>>, last: seq<byte>)
    ensures Flatten(parts + [last]) == Flatten(parts) + last
  {
    if parts == [] {
      assert parts + [last] == [last];
    } else {
      assert (parts + [last])[1..] == parts[1..] + [last];
      FlattenSnoc(parts[1..], last);
    }
  }

  /** The length of a concatenation is the sum of the lengths of its frames. */
  function SumLengths(parts: seq<seq<byte>>): nat
  {
    if parts == [] then 0 else |parts[0]| + SumLengths(parts[1..])
  }

  lemma {:induction false} FlattenLength(parts: seq<seq<byte>>)
    ensures |Flatten(parts)| == SumLengths(parts)
  {
    if parts != [] {
      FlattenLength(parts[1..]);
    }
  }
}
