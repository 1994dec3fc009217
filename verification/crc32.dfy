/**
 * CRC-32 with the ISO-HDLC parameters (the "CRC-32" of section 5.5 of the PNG
 * specification): polynomial 0x04C11DB7 processed least significant bit first
 * (0xEDB88320 reflected), register preset to all ones, result complemented.
 * This stands for the `crc` crate's `Crc::<u32>::new(&CRC_32_ISO_HDLC).checksum`;
 * the crate's table-driven evaluation is replaced by the bit-serial definition.
 */
module Crc32 {
  import opened Bytes

  const ReflectedPoly: bv32 := 0xEDB8_8320
  const Preset: bv32 := 0xFFFF_FFFF

  /** One shift of the register: divide by x and reduce modulo the polynomial. */
  function ShiftBit(c: bv32): bv32
  {
    if c & 1 == 1 then (c >> 1) ^ ReflectedPoly else c >> 1
  }

  function ShiftBits(c: bv32, k: nat): bv32
    decreases k
  {
    if k == 0 then c else ShiftBits(ShiftBit(c), k - 1)
  }

  /** A four-bit value as the low bits of a register. */
  function Nibble(n: int): bv32
    requires 0 <= n < 0x10
  {
    (n as bv4) as bv32
  }

  /**
   * A byte as the low eight bits of a register, high nibble above low nibble.
   * This is the value `b as bv32` would give; it is assembled from two
   * four-bit conversions because the solver reasons about those cheaply,
   * which keeps `ByteBitsInjective` small.
   */
  function ByteBits(b: u8): bv32
  {
    (Nibble(b as int / 0x10) << 4) | Nibble(b as int % 0x10)
  }

  /** Feeds one byte, least significant bit first. */
  function UpdateByte(c: bv32, b: u8): bv32
  {
    ShiftBits(c ^ ByteBits(b), 8)
  }

  /** The register after feeding `s` to a register holding `c`. */
  function Update(c: bv32, s: seq<u8>): bv32
    decreases |s|
  {
    if |s| == 0 then c else Update(UpdateByte(c, s[0]), s[1..])
  }

  /** The final complement, read as an unsigned 32-bit number. */
  function Finish(c: bv32): u32
  {
    (c ^ 0xFFFF_FFFF) as int as u32
  }

  /** CRC-32 of a whole message. */
  function Checksum(s: seq<u8>): u32
  {
    Finish(Update(Preset, s))
  }

  /**
   * Feeding a message in two pieces leaves the register where feeding it at
   * once would: the checksum of a concatenation can be computed incrementally.
   */
  lemma {:induction false} UpdateAppend(c: bv32, a: seq<u8>, b: seq<u8>)
    ensures Update(c, a + b) == Update(Update(c, a), b)
    decreases |a|
  {
    if |a| == 0 {
      assert a + b == b;
    } else {
      assert (a + b)[1..] == a[1..] + b;
      UpdateAppend(UpdateByte(c, a[0]), a[1..], b);
    }
  }

  /**
   * A register shift is one-to-one: registers with the same low bit differ
   * after the shift, and of two registers with different low bits only one
   * gets the polynomial, whose top bit the plain shift never sets.
   */
  lemma ShiftBitInjective(a: bv32, b: bv32)
    requires a != b
    ensures ShiftBit(a) != ShiftBit(b)
  {
    if a & 1 == 1 && b & 1 == 1 {
      SameLowBitShift(a, b);
      BothOddShift(a, b);
    } else if a & 1 == 0 && b & 1 == 0 {
      BothEvenShift(a, b);
    } else if a & 1 == 1 {
      OddEvenShift(a, b);
    } else {
      OddEvenShift(b, a);
    }
  }

  lemma BothOddShift(a: bv32, b: bv32)
    requires a >> 1 != b >> 1 && a & 1 == 1 && b & 1 == 1
    ensures ShiftBit(a) != ShiftBit(b)
  {
  }

  lemma BothEvenShift(a: bv32, b: bv32)
    requires a != b && a & 1 == 0 && b & 1 == 0
    ensures ShiftBit(a) != ShiftBit(b)
  {
    SameLowBitShift(a, b);
    assert ShiftBit(a) == a >> 1;
    assert ShiftBit(b) == b >> 1;
  }

  lemma SameLowBitShift(a: bv32, b: bv32)
    requires a != b && a & 1 == b & 1
    ensures a >> 1 != b >> 1
  {
  }

  lemma OddEvenShift(a: bv32, b: bv32)
    requires a & 1 == 1 && b & 1 == 0
    ensures ShiftBit(a) != ShiftBit(b)
  {
  }

  /** Shifting is one-to-one however many times it is done. */
  lemma {:induction false} ShiftBitsInjective(a: bv32, b: bv32, k: nat)
    requires a != b
    ensures ShiftBits(a, k) != ShiftBits(b, k)
    decreases k
  {
    if k > 0 {
      ShiftBitInjective(a, b);
      ShiftBitsInjective(ShiftBit(a), ShiftBit(b), k - 1);
    }
  }

  lemma XorSameSeparates(a: bv32, b: bv32, c: bv32)
    requires a != b
    ensures a ^ c != b ^ c
    ensures c ^ a != c ^ b
  {
  }

  /** Different bytes give different register bits. */
  lemma ByteBitsInjective(x: u8, y: u8)
    requires x != y
    ensures ByteBits(x) != ByteBits(y)
  {
    var hx, lx := x as int / 0x10, x as int % 0x10;
    var hy, ly := y as int / 0x10, y as int % 0x10;
    assert hx != hy || lx != ly;
    if hx != hy {
      NibbleInjective(hx, hy);
    } else {
      NibbleInjective(lx, ly);
    }
    NibbleSmall(hx);
    NibbleSmall(lx);
    NibbleSmall(hy);
    NibbleSmall(ly);
    NibblePairInjective(Nibble(hx), Nibble(lx), Nibble(hy), Nibble(ly));
  }

  lemma NibbleInjective(n: int, m: int)
    requires 0 <= n < 0x10 && 0 <= m < 0x10 && n != m
    ensures Nibble(n) != Nibble(m)
  {
    NibbleAsInt(n);
    NibbleAsInt(m);
    Bv4Widening(n as bv4, m as bv4);
  }

  lemma NibbleAsInt(n: int)
    requires 0 <= n < 0x10
    ensures (n as bv4) as int == n
  {
  }

  lemma Bv4Widening(x: bv4, y: bv4)
    requires x != y
    ensures x as bv32 != y as bv32
  {
  }

  lemma NibbleSmall(n: int)
    requires 0 <= n < 0x10
    ensures Nibble(n) < 0x10
  {
  }

  /** Two nibbles side by side determine both nibbles. */
  lemma NibblePairInjective(a: bv32, b: bv32, c: bv32, d: bv32)
    requires a < 0x10 && b < 0x10 && c < 0x10 && d < 0x10
    requires a != c || b != d
    ensures (a << 4) | b != (c << 4) | d
  {
  }

  /** Two registers that differ stay different whatever bytes are fed to both. */
  lemma {:induction false} UpdateKeepsDifference(a: bv32, b: bv32, s: seq<u8>)
    requires a != b
    ensures Update(a, s) != Update(b, s)
    decreases |s|
  {
    if |s| > 0 {
      UpdateByteInjective(a, b, s[0]);
      UpdateKeepsDifference(UpdateByte(a, s[0]), UpdateByte(b, s[0]), s[1..]);
    }
  }

  /** Feeding the same byte to two different registers keeps them different. */
  lemma UpdateByteInjective(a: bv32, b: bv32, x: u8)
    requires a != b
    ensures UpdateByte(a, x) != UpdateByte(b, x)
  {
    var p, q := a ^ ByteBits(x), b ^ ByteBits(x);
    XorByteKeeps(a, b, x);
    ShiftBitsInjective(p, q, 8);
  }

  lemma XorByteKeeps(a: bv32, b: bv32, x: u8)
    requires a != b
    ensures a ^ ByteBits(x) != b ^ ByteBits(x)
  {
    XorSameSeparates(a, b, ByteBits(x));
  }

  /** Feeding two different bytes to the same register gives different registers. */
  lemma UpdateByteSeparates(c: bv32, x: u8, y: u8)
    requires x != y
    ensures UpdateByte(c, x) != UpdateByte(c, y)
  {
    var p, q := c ^ ByteBits(x), c ^ ByteBits(y);
    XorByteSeparates(c, x, y);
    ShiftBitsInjective(p, q, 8);
  }

  lemma XorByteSeparates(c: bv32, x: u8, y: u8)
    requires x != y
    ensures c ^ ByteBits(x) != c ^ ByteBits(y)
  {
    ByteBitsInjective(x, y);
    XorSameSeparates(ByteBits(x), ByteBits(y), c);
  }

  /**
   * CRC-32 detects every error confined to one byte: two messages of the same
   * length that differ in exactly one position have different checksums.
   */
  lemma SingleByteErrorDetected(m: seq<u8>, k: nat, v: u8)
    requires k < |m| && v != m[k]
    ensures Checksum(m[k := v]) != Checksum(m)
  {
    assert m == m[..k] + [m[k]] + m[k + 1..];
    assert m[k := v] == m[..k] + [v] + m[k + 1..];
    RegisterSeparates(Preset, m[..k], v, m[k], m[k + 1..]);
    FinishInjective(Update(Preset, m[k := v]), Update(Preset, m));
  }

  /** Registers fed messages that differ in one byte end up different. */
  lemma RegisterSeparates(c: bv32, p: seq<u8>, x: u8, y: u8, t: seq<u8>)
    requires x != y
    ensures Update(c, p + [x] + t) != Update(c, p + [y] + t)
  {
    UpdateAppend(c, p + [x], t);
    UpdateAppend(c, p + [y], t);
    UpdateAppend(c, p, [x]);
    UpdateAppend(c, p, [y]);
    var r := Update(c, p);
    assert Update(r, [x]) == UpdateByte(r, x);
    assert Update(r, [y]) == UpdateByte(r, y);
    UpdateByteSeparates(r, x, y);
    UpdateKeepsDifference(UpdateByte(r, x), UpdateByte(r, y), t);
  }

  /** The final complement loses nothing. */
  lemma FinishInjective(a: bv32, b: bv32)
    requires a != b
    ensures Finish(a) != Finish(b)
  {
    XorSameSeparates(a, b, 0xFFFF_FFFF);
    AsIntInjective(a ^ 0xFFFF_FFFF, b ^ 0xFFFF_FFFF);
  }

  lemma AsIntInjective(x: bv32, y: bv32)
    requires x != y
    ensures x as int != y as int
  {
    IntRoundTrip(x);
    IntRoundTrip(y);
  }

  lemma IntRoundTrip(x: bv32)
    ensures (x as int) as bv32 == x
  {
  }

  /** The check value of the ISO-HDLC parameter set: CRC-32 of the ASCII text "123456789". */
  lemma CheckValue()
    ensures Checksum([49, 50, 51, 52, 53, 54, 55, 56, 57]) == 0xCBF4_3926
  {
    assert ByteBits(49) == 49;
    assert UpdateByte(0xFFFFFFFF, 49) == 0x7C231048;
    assert ByteBits(50) == 50;
    assert UpdateByte(0x7C231048, 50) == 0xB0ACBB32;
    assert ByteBits(51) == 51;
    assert UpdateByte(0xB0ACBB32, 51) == 0x77B79C2D;
    assert ByteBits(52) == 52;
    assert UpdateByte(0x77B79C2D, 52) == 0x641C1F5C;
    assert ByteBits(53) == 53;
    assert UpdateByte(0x641C1F5C, 53) == 0x340AC5E3;
    assert ByteBits(54) == 54;
    assert UpdateByte(0x340AC5E3, 54) == 0xF68D2C9E;
    assert ByteBits(55) == 55;
    assert UpdateByte(0xF68D2C9E, 55) == 0xAFFC9660;
    assert ByteBits(56) == 56;
    assert UpdateByte(0xAFFC9660, 56) == 0x651F2550;
    assert ByteBits(57) == 57;
    assert UpdateByte(0x651F2550, 57) == 0x340BC6D9;
  }
}
