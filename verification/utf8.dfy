/**
 * UTF-8 encoding of text, as Rust's `str::bytes` yields it: one byte for a
 * character below 0x80, otherwise a lead byte and continuation bytes, all of
 * them 0x80 or above.
 */
module Utf8 {
  import opened Bytes

  /** The UTF-8 bytes of one Unicode scalar value. */
  function EncodeChar(c: char): (r: seq<u8>)
    ensures 1 <= |r| <= 4
    ensures c as int < 0x80 ==> r == [c as int as u8]
    ensures c as int >= 0x80 ==> forall i | 0 <= i < |r| :: r[i] >= 0x80
  {
    var n := c as int;
    if n < 0x80 then
      [n as u8]
    else if n < 0x800 then
      [(0xC0 + n / 0x40) as u8, (0x80 + n % 0x40) as u8]
    else if n < 0x1_0000 then
      [(0xE0 + n / 0x1000) as u8, (0x80 + n / 0x40 % 0x40) as u8, (0x80 + n % 0x40) as u8]
    else
      [(0xF0 + n / 0x4_0000) as u8, (0x80 + n / 0x1000 % 0x40) as u8,
       (0x80 + n / 0x40 % 0x40) as u8, (0x80 + n % 0x40) as u8]
  }

  /** The UTF-8 bytes of a string, character after character. */
  function Encode(s: string): seq<u8>
    decreases |s|
  {
    if |s| == 0 then [] else EncodeChar(s[0]) + Encode(s[1..])
  }

  predicate IsAscii(s: string)
  {
    forall i | 0 <= i < |s| :: s[i] as int < 0x80
  }

  /** An ASCII string encodes to one byte per character, each equal to its code point. */
  lemma {:induction false} EncodeAscii(s: string)
    requires IsAscii(s)
    ensures |Encode(s)| == |s|
    ensures forall i | 0 <= i < |s| :: Encode(s)[i] as int == s[i] as int
    decreases |s|
  {
    if |s| > 0 {
      EncodeAscii(s[1..]);
    }
  }

  /** Any character outside ASCII leaves a byte of 0x80 or above in the encoding. */
  lemma {:induction false} EncodeNonAscii(s: string, k: nat)
    requires k < |s| && s[k] as int >= 0x80
    ensures exists j | 0 <= j < |Encode(s)| :: Encode(s)[j] >= 0x80
    decreases |s|
  {
    if k == 0 {
      assert Encode(s)[0] == EncodeChar(s[0])[0];
    } else {
      EncodeNonAscii(s[1..], k - 1);
      var j :| 0 <= j < |Encode(s[1..])| && Encode(s[1..])[j] >= 0x80;
      assert Encode(s)[|EncodeChar(s[0])| + j] == Encode(s[1..])[j];
    }
  }

  /** Encoding is character by character, so it distributes over concatenation. */
  lemma {:induction false} EncodeAppend(a: string, b: string)
    ensures Encode(a + b) == Encode(a) + Encode(b)
    decreases |a|
  {
    if |a| == 0 {
      assert a + b == b;
    } else {
      assert (a + b)[1..] == a[1..] + b;
      EncodeAppend(a[1..], b);
    }
  }
}
