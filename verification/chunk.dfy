/**
 * PNG chunks (section 5.3 of the PNG specification): a big-endian length, a
 * four-letter chunk type, the payload, and a CRC-32 over type and payload.
 */
module Chunks {
  import opened Bytes
  import opened Wrappers
  import opened ChunkTypes
  import Crc32

  datatype Chunk = Chunk(chunkType: ChunkType, data: seq<u8>, crc: u32) {

    /** `length`: the payload size, a `usize`. */
    function Length(): nat
    {
      |data|
    }
  }

  /** The single failure of `TryFrom<&[u8]>` (the source's unit error). */
  datatype MalformedChunk = MalformedChunk

  /**
   * `crc_checksum`: the type bytes are put in a buffer, the payload appended,
   * and the CRC-32 of the buffer taken.
   */
  function CrcChecksum(t: ChunkType, data: seq<u8>): u32
  {
    var allData := t.Bytes() + data;
    Crc32.Checksum(allData)
  }

  /**
   * The checksum is what a CRC register fed first the type and then the
   * payload holds, so it can be computed without building the buffer.
   */
  lemma CrcChecksumStreams(t: ChunkType, data: seq<u8>)
    ensures CrcChecksum(t, data) == Crc32.Finish(Crc32.Update(Crc32.Update(Crc32.Preset, t.Bytes()), data))
  {
    Crc32.UpdateAppend(Crc32.Preset, t.Bytes(), data);
  }

  /** The invariant of every chunk the source can build: the stored CRC is the computed one. */
  predicate Consistent(c: Chunk)
  {
    c.crc == CrcChecksum(c.chunkType, c.data)
  }

  /** `Chunk::new`: never fails, keeps type and payload, and computes the CRC. */
  function New(t: ChunkType, data: seq<u8>): (c: Chunk)
    ensures c.chunkType == t && c.data == data && c.Length() == |data|
    ensures Consistent(c)
  {
    Chunk(t, data, CrcChecksum(t, data))
  }

  /** `Into<(ChunkType, Chunk)>`: the chunk's own type, paired with the chunk. */
  function IntoPair(c: Chunk): (p: (ChunkType, Chunk))
    ensures p.0 == c.chunkType && p.1 == c
  {
    (c.chunkType, c)
  }

  /**
   * The layout of section 5.3: the payload length as a big-endian `u32`
   * (the `usize` length cast with `as u32`), the four type bytes, the
   * payload, and the CRC as a big-endian `u32`.
   */
  predicate IsWireEncoding(bytes: seq<u8>, c: Chunk)
  {
    var n := |c.data|;
    && |bytes| == 12 + n
    && bytes[..4] == ToBeBytes(TruncateToU32(n))
    && bytes[4..8] == c.chunkType.Bytes()
    && bytes[8..8 + n] == c.data
    && bytes[8 + n..] == ToBeBytes(c.crc)
  }

  /** `as_bytes`: a buffer extended with length, type, payload and CRC, in that order. */
  method AsBytes(c: Chunk) returns (bytes: seq<u8>)
    ensures IsWireEncoding(bytes, c)
    ensures |bytes| == 12 + c.Length()
  {
    bytes := [];
    var length := TruncateToU32(|c.data|);
    bytes := bytes + ToBeBytes(length);
    bytes := bytes + c.chunkType.Bytes();
    bytes := bytes + c.data;
    bytes := bytes + ToBeBytes(c.crc);
  }

  /** Rust's `iter().skip(n)`. */
  function Skip(s: seq<u8>, n: nat): (r: seq<u8>)
  {
    if n <= |s| then s[n..] else []
  }

  /** Rust's `iter().take(k)`: at most `k` elements. */
  function Take(s: seq<u8>, k: nat): (r: seq<u8>)
  {
    if k <= |s| then s[..k] else s
  }

  /** Rust's `iter().rev().take(k)`: the last `k` elements, last one first. */
  function RevTake(s: seq<u8>, k: nat): (r: seq<u8>)
    ensures |r| == if k <= |s| then k else |s|
    ensures forall i | 0 <= i < |r| :: r[i] == s[|s| - 1 - i]
    decreases k
  {
    if k == 0 || |s| == 0 then [] else [s[|s| - 1]] + RevTake(s[..|s| - 1], k - 1)
  }

  /**
   * When `TryFrom<&[u8]>` accepts a slice: at least 12 bytes, bytes 4..8 all
   * letters, at least `length` bytes after byte 8, and the CRC-32 of bytes
   * 4..8+length equal to the big-endian number in the slice's last four bytes.
   */
  predicate Accepts(bytes: seq<u8>)
  {
    && |bytes| >= 12
    && (forall i | 4 <= i < 8 :: IsAsciiLetter(bytes[i]))
    && var n := FromBeBytes(bytes[..4]) as int;
    && 8 + n <= |bytes|
    && Crc32.Checksum(bytes[4..8 + n]) == FromBeBytes(bytes[|bytes| - 4..])
  }

  /**
   * `TryFrom<&[u8]>`: reads the declared length, checks the type, takes up
   * to `length` payload bytes after byte 8, reads the CRC from the last four
   * bytes of the slice (reversed, then read little-endian), and rebuilds the
   * chunk with `new` when the payload is complete and the CRC matches.
   */
  function TryFrom(bytes: seq<u8>): (r: Result<Chunk, MalformedChunk>)
    ensures r.Ok? <==> Accepts(bytes)
    ensures r.Ok? ==> Consistent(r.value)
    ensures r.Ok? ==> r.value.chunkType.Bytes() == bytes[4..8]
    ensures r.Ok? ==> |bytes| >= 8 + r.value.Length() && r.value.data == bytes[8..8 + r.value.Length()]
    ensures r.Ok? ==> r.value.Length() == FromBeBytes(bytes[..4]) as int
  {
    if |bytes| < 12 then
      Err(MalformedChunk)
    else
      var length := FromBeBytes(bytes[0..4]);
      match TryFromArray(bytes[4..8])
      case Err(_) => Err(MalformedChunk)
      case Ok(chunkType) =>
        var data := Take(Skip(bytes, 8), length as nat);
        var crcBytes := RevTake(bytes, 4);
        var crc := FromLeBytes(crcBytes);
        var computedCrc := CrcChecksum(chunkType, data);
        AcceptsWhen(bytes, chunkType, data, crcBytes);
        if |data| == length as int && computedCrc == crc then
          Ok(New(chunkType, data))
        else
          Err(MalformedChunk)
  }

  /** Reversing the last four bytes and reading them little-endian is reading them big-endian. */
  lemma CrcFieldIsBigEndian(bytes: seq<u8>)
    requires |bytes| >= 4
    ensures |RevTake(bytes, 4)| == 4
    ensures FromLeBytes(RevTake(bytes, 4)) == FromBeBytes(bytes[|bytes| - 4..])
  {
    var m := |bytes|;
    var last: Bytes4 := bytes[m - 4..];
    assert RevTake(bytes, 4) == [last[3], last[2], last[1], last[0]];
    LeOfReversedIsBe(last);
  }

  /** `skip(8).take(length)` yields a full payload exactly when the slice is long enough. */
  lemma PayloadTaken(bytes: seq<u8>, n: nat)
    requires |bytes| >= 8
    ensures |Take(Skip(bytes, 8), n)| == n <==> 8 + n <= |bytes|
    ensures 8 + n <= |bytes| ==> Take(Skip(bytes, 8), n) == bytes[8..8 + n]
  {
  }

  /** The steps of `TryFrom` compute exactly the quantities `Accepts` names. */
  lemma AcceptsWhen(bytes: seq<u8>, t: ChunkType, data: seq<u8>, crcBytes: seq<u8>)
    requires |bytes| >= 12 && t.Bytes() == bytes[4..8]
    requires data == Take(Skip(bytes, 8), FromBeBytes(bytes[..4]) as nat)
    requires crcBytes == RevTake(bytes, 4)
    ensures |crcBytes| == 4
    ensures (|data| == FromBeBytes(bytes[..4]) as int
             && CrcChecksum(t, data) == FromLeBytes(crcBytes)) <==> Accepts(bytes)
  {
    var n := FromBeBytes(bytes[..4]) as int;
    CrcFieldIsBigEndian(bytes);
    PayloadTaken(bytes, n);
    if 8 + n <= |bytes| {
      assert t.Bytes() + data == bytes[4..8 + n];
    }
    assert forall i | 4 <= i < 8 :: bytes[i] == t.code[i - 4];
    assert (forall i | 4 <= i < 8 :: IsAsciiLetter(bytes[i]));
    if 8 + n <= |bytes| {
      assert data == bytes[8..8 + n];
      assert Crc32.Checksum(bytes[4..8 + n]) == CrcChecksum(t, data);
      assert FromLeBytes(crcBytes) == FromBeBytes(bytes[|bytes| - 4..]);
    }
  }

  /** Slices shorter than the 12 bytes of fixed fields, and slices whose bytes 4..8 are not all letters, are refused. */
  lemma HeaderChecks(bytes: seq<u8>)
    ensures |bytes| < 12 ==> TryFrom(bytes).Err?
    ensures (exists i | 4 <= i < 8 && i < |bytes| :: !IsAsciiLetter(bytes[i])) ==> TryFrom(bytes).Err?
  {
  }

  /** A slice parses to a consistent chunk when its header and payload are the chunk's and its last four bytes are the chunk's CRC. */
  lemma ParsesTo(bytes: seq<u8>, c: Chunk)
    requires Consistent(c) && |c.data| < U32Modulus
    requires |bytes| >= 12 + |c.data|
    requires bytes[..4] == ToBeBytes(TruncateToU32(|c.data|))
    requires bytes[4..8] == c.chunkType.Bytes()
    requires bytes[8..8 + |c.data|] == c.data
    requires bytes[|bytes| - 4..] == ToBeBytes(c.crc)
    ensures TryFrom(bytes) == Ok(c)
  {
    var n := |c.data|;
    BeRoundTrip(TruncateToU32(n));
    BeRoundTrip(c.crc);
    assert forall i | 4 <= i < 8 :: bytes[i] == c.chunkType.code[i - 4];
    assert bytes[4..8 + n] == c.chunkType.Bytes() + c.data;
    assert Accepts(bytes);
    var r := TryFrom(bytes).value;
    assert r.chunkType.code == c.chunkType.code;
  }

  /**
   * Round trip: the bytes `as_bytes` lays out for a chunk built by `new` or
   * by a successful parse, with a payload shorter than 2^32 bytes, parse back
   * to the same chunk.
   */
  lemma RoundTrip(c: Chunk, bytes: seq<u8>)
    requires Consistent(c) && |c.data| < U32Modulus
    requires IsWireEncoding(bytes, c)
    ensures TryFrom(bytes) == Ok(c)
  {
    ParsesTo(bytes, c);
  }

  /** Any value in the CRC field other than the right checksum makes the parse fail. */
  lemma CorruptedCrcRejected(c: Chunk, bytes: seq<u8>, x: u32)
    requires Consistent(c) && |c.data| < U32Modulus
    requires IsWireEncoding(bytes, c)
    requires x != c.crc
    ensures TryFrom(bytes[..8 + |c.data|] + ToBeBytes(x)).Err?
  {
    var n := |c.data|;
    var bad := bytes[..8 + n] + ToBeBytes(x);
    BeRoundTrip(TruncateToU32(n));
    BeRoundTrip(x);
    assert bad[..4] == bytes[..4];
    assert bad[4..8 + n] == c.chunkType.Bytes() + c.data;
    assert bad[|bad| - 4..] == ToBeBytes(x);
  }

  /**
   * The parser takes the CRC from the end of the slice, not from offset
   * 8+length: bytes between the payload and the last four are never looked at.
   */
  lemma CrcReadFromSliceEnd(c: Chunk, bytes: seq<u8>, gap: seq<u8>)
    requires Consistent(c) && |c.data| < U32Modulus
    requires IsWireEncoding(bytes, c)
    ensures TryFrom(bytes[..8 + |c.data|] + gap + ToBeBytes(c.crc)) == Ok(c)
  {
    var n := |c.data|;
    var longer := bytes[..8 + n] + gap + ToBeBytes(c.crc);
    assert longer[..4] == bytes[..4];
    assert longer[4..8] == bytes[4..8];
    assert longer[8..8 + n] == bytes[8..8 + n];
    assert longer[|longer| - 4..] == ToBeBytes(c.crc);
    ParsesTo(longer, c);
  }

  /**
   * A single corrupted byte in the type or the payload of a chunk's encoding
   * is caught: the CRC no longer matches (or the type is no longer letters),
   * so the parse fails.
   */
  lemma CorruptedByteRejected(c: Chunk, bytes: seq<u8>, k: nat, v: u8)
    requires Consistent(c) && |c.data| < U32Modulus
    requires IsWireEncoding(bytes, c)
    requires 4 <= k < 8 + |c.data| && v != bytes[k]
    ensures TryFrom(bytes[k := v]).Err?
  {
    var n := |c.data|;
    var bad := bytes[k := v];
    BeRoundTrip(TruncateToU32(n));
    BeRoundTrip(c.crc);
    assert bad[..4] == bytes[..4];
    assert bad[|bad| - 4..] == bytes[|bytes| - 4..];
    var covered := bytes[4..8 + n];
    assert covered == c.chunkType.Bytes() + c.data;
    assert bad[4..8 + n] == covered[k - 4 := v];
    Crc32.SingleByteErrorDetected(covered, k - 4, v);
  }

  /**
   * `as_bytes` casts the payload length with `as u32`, so a chunk whose
   * payload has 2^32 bytes or more is not recovered from its own encoding.
   */
  lemma LongPayloadNotRecovered(c: Chunk, bytes: seq<u8>)
    requires IsWireEncoding(bytes, c) && |c.data| >= U32Modulus
    ensures TryFrom(bytes) != Ok(c)
  {
  }
}
