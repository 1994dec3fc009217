/**
 * Fixed-width unsigned integers and the byte-order conversions of Rust's
 * `u32::to_be_bytes`, `u32::from_be_bytes` and `u32::from_le_bytes`, which the
 * chunk codec uses for its length and CRC fields.
 */
module Bytes {

  newtype u8 = x: int | 0 <= x < 0x100
  newtype u32 = x: int | 0 <= x < 0x1_0000_0000

  /** A Rust `[u8; 4]`. */
  type Bytes4 = s: seq<u8> | |s| == 4 witness [0, 0, 0, 0]

  const U32Modulus: int := 0x1_0000_0000

  /** Rust's `n as u32` for a `usize` value: keeps the low 32 bits. */
  function TruncateToU32(n: nat): (r: u32)
    ensures n < U32Modulus ==> r as int == n
    ensures (r as int - n) % U32Modulus == 0
  {
    (n % U32Modulus) as u32
  }

  /** `u32::to_be_bytes`: most significant byte first. */
  function ToBeBytes(x: u32): (r: Bytes4)
  {
    var n := x as int;
    var q1 := n / 0x100;
    var q2 := q1 / 0x100;
    var q3 := q2 / 0x100;
    [q3 as u8, (q2 % 0x100) as u8, (q1 % 0x100) as u8, (n % 0x100) as u8]
  }

  /** `u32::from_be_bytes`: the first byte is the most significant one. */
  function FromBeBytes(b: Bytes4): u32
  {
    (((b[0] as int * 0x100 + b[1] as int) * 0x100 + b[2] as int) * 0x100 + b[3] as int) as u32
  }

  /** `u32::from_le_bytes`: the first byte is the least significant one. */
  function FromLeBytes(b: Bytes4): u32
  {
    (((b[3] as int * 0x100 + b[2] as int) * 0x100 + b[1] as int) * 0x100 + b[0] as int) as u32
  }

  /** Reading back what `to_be_bytes` wrote gives the original number. */
  lemma BeRoundTrip(x: u32)
    ensures FromBeBytes(ToBeBytes(x)) == x
  {
    var n := x as int;
    var q1 := n / 0x100;
    var q2 := q1 / 0x100;
    var q3 := q2 / 0x100;
    assert q3 * 0x100 + q2 % 0x100 == q2;
    assert q2 * 0x100 + q1 % 0x100 == q1;
    assert q1 * 0x100 + n % 0x100 == n;
  }

  /** Big-endian decoding is one-to-one, so two different numbers never share an encoding. */
  lemma BeDecodeInjective(a: Bytes4, b: Bytes4)
    ensures FromBeBytes(a) == FromBeBytes(b) ==> a == b
  {
    if FromBeBytes(a) == FromBeBytes(b) {
      BeEncodeOfDecode(a);
      BeEncodeOfDecode(b);
    }
  }

  /** Every four bytes are the big-endian encoding of the number they decode to. */
  lemma BeEncodeOfDecode(b: Bytes4)
    ensures ToBeBytes(FromBeBytes(b)) == b
  {
    var q2 := b[0] as int * 0x100 + b[1] as int;
    var q1 := q2 * 0x100 + b[2] as int;
    var n := q1 * 0x100 + b[3] as int;
    assert n / 0x100 == q1 && n % 0x100 == b[3] as int;
    assert q1 / 0x100 == q2 && q1 % 0x100 == b[2] as int;
    assert q2 / 0x100 == b[0] as int && q2 % 0x100 == b[1] as int;
  }

  /** Little-endian reading of the reversed bytes equals big-endian reading of the bytes. */
  lemma LeOfReversedIsBe(b: Bytes4)
    ensures FromLeBytes([b[3], b[2], b[1], b[0]]) == FromBeBytes(b)
  {
  }
}
