/** Bytes and the little-endian unsigned integers of the wire format. */
module Bytes {

  /** An octet, Rust's `u8`. */
  type Byte = b: int | 0 <= b < 256

  /** 256 to the power `w`: the number of values a `w`-byte integer can hold. */
  function Pow256(w: nat): (p: nat)
    ensures p >= 1
  {
    if w == 0 then 1 else 256 * Pow256(w - 1)
  }

  /** One more than the largest `u32`. */
  const U32_LIMIT: nat := 0x1_0000_0000

  lemma Pow256Of4()
    ensures Pow256(4) == U32_LIMIT
  {
    assert Pow256(1) == 256;
    assert Pow256(2) == 65536;
    assert Pow256(3) == 16777216;
  }

  /** The low `width` bytes of `n`, least significant first (`to_le_bytes`). */
  function LeBytes(n: nat, width: nat): (b: seq<Byte>)
    ensures |b| == width
  {
    if width == 0 then [] else [n % 256] + LeBytes(n / 256, width - 1)
  }

  /** The number whose little-endian bytes are `b` (`from_le_bytes`). */
  function FromLe(b: seq<Byte>): (n: nat)
  {
    if b == [] then 0 else b[0] + 256 * FromLe(b[1..])
  }

  /** A `w`-byte little-endian number is below 256^w. */
  lemma {:induction false} FromLeBound(b: seq<Byte>)
    ensures FromLe(b) < Pow256(|b|)
  {
    if b != [] {
      FromLeBound(b[1..]);
    }
  }

  /** Decoding the bytes of a number that fits gives the number back. */
  lemma {:induction false} LeRoundTrip(n: nat, width: nat)
    requires n < Pow256(width)
    ensures FromLe(LeBytes(n, width)) == n
  {
    if width > 0 {
      LeRoundTrip(n / 256, width - 1);
      assert LeBytes(n, width)[1..] == LeBytes(n / 256, width - 1);
    }
  }

  /** Encoding the value of a byte string at its own width gives the bytes back. */
  lemma {:induction false} LeBytesOfFromLe(b: seq<Byte>)
    ensures LeBytes(FromLe(b), |b|) == b
  {
    if b != [] {
      var rest := FromLe(b[1..]);
      assert FromLe(b) == b[0] + 256 * rest;
      assert FromLe(b) % 256 == b[0];
      assert FromLe(b) / 256 == rest;
      LeBytesOfFromLe(b[1..]);
    }
  }

  /** `u32::to_le_bytes` of the value `n` truncated to 32 bits (Rust's `as u32`). */
  function U32Le(n: nat): (b: seq<Byte>)
    ensures |b| == 4
    ensures FromLe(b) == n % U32_LIMIT
  {
    Pow256Of4();
    LeRoundTrip(n % U32_LIMIT, 4);
    LeBytes(n % U32_LIMIT, 4)
  }
}
