/**
 * The fixtures of the chunk codec's unit tests: chunk type "RuSt" with a
 * 42-byte ASCII message, whose CRC the tests give as 2882656334.
 */
module ChunkTests {
  import opened Bytes
  import opened Wrappers
  import opened ChunkTypes
  import opened Chunks
  import Crc32

  /** The 42 ASCII bytes of "This is where your secret message will be!", in six parts of seven. */
  const Part1: seq<u8> := [84, 104, 105, 115, 32, 105, 115]
  const Part2: seq<u8> := [32, 119, 104, 101, 114, 101, 32]
  const Part3: seq<u8> := [121, 111, 117, 114, 32, 115, 101]
  const Part4: seq<u8> := [99, 114, 101, 116, 32, 109, 101]
  const Part5: seq<u8> := [115, 115, 97, 103, 101, 32, 119]
  const Part6: seq<u8> := [105, 108, 108, 32, 98, 101, 33]
  const SecretMessage: seq<u8> := Part1 + Part2 + Part3 + Part4 + Part5 + Part6

  /** The message as the tests write it, as text, in the same six parts. */
  const Text1: string := "This is"
  const Text2: string := " where "
  const Text3: string := "your se"
  const Text4: string := "cret me"
  const Text5: string := "ssage w"
  const Text6: string := "ill be!"

  /** Each part of the text encodes to the matching part of the message bytes. */
  lemma Part1Encoding()
    ensures Utf8.Encode(Text1) == Part1
  {
    Utf8.EncodeAscii(Text1);
  }

  lemma Part2Encoding()
    ensures Utf8.Encode(Text2) == Part2
  {
    Utf8.EncodeAscii(Text2);
  }

  lemma Part3Encoding()
    ensures Utf8.Encode(Text3) == Part3
  {
    Utf8.EncodeAscii(Text3);
  }

  lemma Part4Encoding()
    ensures Utf8.Encode(Text4) == Part4
  {
    Utf8.EncodeAscii(Text4);
  }

  lemma Part5Encoding()
    ensures Utf8.Encode(Text5) == Part5
  {
    Utf8.EncodeAscii(Text5);
  }

  lemma Part6Encoding()
    ensures Utf8.Encode(Text6) == Part6
  {
    Utf8.EncodeAscii(Text6);
  }

  /** `SecretMessage` is what `"This is where your secret message will be!".as_bytes()` yields. */
  lemma SecretMessageIsText()
    ensures Utf8.Encode("This is where your secret message will be!") == SecretMessage
    ensures |SecretMessage| == 42
  {
    assert "This is where your secret message will be!" == Text1 + Text2 + Text3 + Text4 + Text5 + Text6;
    Part1Encoding();
    Part2Encoding();
    Part3Encoding();
    Part4Encoding();
    Part5Encoding();
    Part6Encoding();
    Utf8.EncodeAppend(Text1, Text2);
    Utf8.EncodeAppend(Text1 + Text2, Text3);
    Utf8.EncodeAppend(Text1 + Text2 + Text3, Text4);
    Utf8.EncodeAppend(Text1 + Text2 + Text3 + Text4, Text5);
    Utf8.EncodeAppend(Text1 + Text2 + Text3 + Text4 + Text5, Text6);
  }

  const RuSt: ChunkType := ChunkType([82, 117, 83, 116])

  /** The register after the type bytes "RuSt". */
  lemma TypeRegister()
    ensures Crc32.Update(Crc32.Preset, RuSt.Bytes()) == 0x2B7BF6C3
  {
    assert Crc32.ByteBits(82) == 82;
    assert Crc32.UpdateByte(0xFFFFFFFF, 82) == 0xA89820AA;
    assert Crc32.ByteBits(117) == 117;
    assert Crc32.UpdateByte(0xA89820AA, 117) == 0x16C45765;
    assert Crc32.ByteBits(83) == 83;
    assert Crc32.UpdateByte(0x16C45765, 83) == 0xCFAC51CE;
    assert Crc32.ByteBits(116) == 116;
    assert Crc32.UpdateByte(0xCFAC51CE, 116) == 0x2B7BF6C3;
  }

  /** The register after the message bytes 0 to 6. */
  lemma RegisterAfterPart1()
    ensures Crc32.Update(0x2B7BF6C3, Part1) == 0x5CE46AA6
  {
    assert Crc32.ByteBits(84) == 84;
    assert Crc32.UpdateByte(0x2B7BF6C3, 84) == 0x6E407D11;
    assert Crc32.ByteBits(104) == 104;
    assert Crc32.UpdateByte(0x6E407D11, 104) == 0x29B789E5;
    assert Crc32.ByteBits(105) == 105;
    assert Crc32.UpdateByte(0x29B789E5, 105) == 0xE4277882;
    assert Crc32.ByteBits(115) == 115;
    assert Crc32.UpdateByte(0xE4277882, 115) == 0xCA5EE5F2;
    assert Crc32.ByteBits(32) == 32;
    assert Crc32.UpdateByte(0xCA5EE5F2, 32) == 0x6817ED1D;
    assert Crc32.ByteBits(105) == 105;
    assert Crc32.UpdateByte(0x6817ED1D, 105) == 0x5700A2C8;
    assert Crc32.ByteBits(115) == 115;
    assert Crc32.UpdateByte(0x5700A2C8, 115) == 0x5CE46AA6;
  }

  /** The register after the message bytes 7 to 13. */
  lemma RegisterAfterPart2()
    ensures Crc32.Update(0x5CE46AA6, Part2) == 0xD92A2721
  {
    assert Crc32.ByteBits(32) == 32;
    assert Crc32.UpdateByte(0x5CE46AA6, 32) == 0x0487C27F;
    assert Crc32.ByteBits(119) == 119;
    assert Crc32.UpdateByte(0x0487C27F, 119) == 0x0EDF0FF0;
    assert Crc32.ByteBits(104) == 104;
    assert Crc32.UpdateByte(0x0EDF0FF0, 104) == 0xFEDAC479;
    assert Crc32.ByteBits(101) == 101;
    assert Crc32.UpdateByte(0xFEDAC479, 101) == 0x14FF868B;
    assert Crc32.ByteBits(114) == 114;
    assert Crc32.UpdateByte(0x14FF868B, 114) == 0xC475B53E;
    assert Crc32.ByteBits(101) == 101;
    assert Crc32.UpdateByte(0xC475B53E, 101) == 0xFC7DFDC9;
    assert Crc32.ByteBits(32) == 32;
    assert Crc32.UpdateByte(0xFC7DFDC9, 32) == 0xD92A2721;
  }

  /** The register after the message bytes 14 to 20. */
  lemma RegisterAfterPart3()
    ensures Crc32.Update(0xD92A2721, Part3) == 0xD29F10CD
  {
    assert Crc32.ByteBits(121) == 121;
    assert Crc32.UpdateByte(0xD92A2721, 121) == 0x6569F3E1;
    assert Crc32.ByteBits(111) == 111;
    assert Crc32.UpdateByte(0x6569F3E1, 111) == 0x0A65C7D4;
    assert Crc32.ByteBits(117) == 117;
    assert Crc32.UpdateByte(0x0A65C7D4, 117) == 0xA1DBF6B9;
    assert Crc32.ByteBits(114) == 114;
    assert Crc32.UpdateByte(0xA1DBF6B9, 114) == 0x0C17C0CE;
    assert Crc32.ByteBits(32) == 32;
    assert Crc32.UpdateByte(0x0C17C0CE, 32) == 0x47BED8BF;
    assert Crc32.ByteBits(115) == 115;
    assert Crc32.UpdateByte(0x47BED8BF, 115) == 0x92953043;
    assert Crc32.ByteBits(101) == 101;
    assert Crc32.UpdateByte(0x92953043, 101) == 0xD29F10CD;
  }

  /** The register after the message bytes 21 to 27. */
  lemma RegisterAfterPart4()
    ensures Crc32.Update(0xD29F10CD, Part4) == 0xEDEACE9A
  {
    assert Crc32.ByteBits(99) == 99;
    assert Crc32.UpdateByte(0xD29F10CD, 99) == 0x31BC11FF;
    assert Crc32.ByteBits(114) == 114;
    assert Crc32.UpdateByte(0x31BC11FF, 114) == 0x9338438C;
    assert Crc32.ByteBits(101) == 101;
    assert Crc32.UpdateByte(0x9338438C, 101) == 0xD945629F;
    assert Crc32.ByteBits(116) == 116;
    assert Crc32.UpdateByte(0xD945629F, 116) == 0x37017E92;
    assert Crc32.ByteBits(32) == 32;
    assert Crc32.UpdateByte(0x37017E92, 32) == 0x2558D3DE;
    assert Crc32.ByteBits(109) == 109;
    assert Crc32.UpdateByte(0x2558D3DE, 109) == 0x524DBAE5;
    assert Crc32.ByteBits(101) == 101;
    assert Crc32.UpdateByte(0x524DBAE5, 101) == 0xEDEACE9A;
  }

  /** The register after the message bytes 28 to 34. */
  lemma RegisterAfterPart5()
    ensures Crc32.Update(0xEDEACE9A, Part5) == 0x6147FD45
  {
    assert Crc32.ByteBits(115) == 115;
    assert Crc32.UpdateByte(0xEDEACE9A, 115) == 0xD93BB012;
    assert Crc32.ByteBits(115) == 115;
    assert Crc32.UpdateByte(0xD93BB012, 115) == 0x3A6C6A7E;
    assert Crc32.ByteBits(97) == 97;
    assert Crc32.UpdateByte(0x3A6C6A7E, 97) == 0x8D32619F;
    assert Crc32.ByteBits(103) == 103;
    assert Crc32.UpdateByte(0x8D32619F, 103) == 0xB3EB484F;
    assert Crc32.ByteBits(101) == 101;
    assert Crc32.UpdateByte(0xB3EB484F, 101) == 0xDB08229E;
    assert Crc32.ByteBits(32) == 32;
    assert Crc32.UpdateByte(0xDB08229E, 32) == 0x2C0296A9;
    assert Crc32.ByteBits(119) == 119;
    assert Crc32.UpdateByte(0x2C0296A9, 119) == 0x6147FD45;
  }

  /** The register after the message bytes 35 to 41. */
  lemma RegisterAfterPart6()
    ensures Crc32.Update(0x6147FD45, Part6) == 0x542E27B1
  {
    assert Crc32.ByteBits(105) == 105;
    assert Crc32.UpdateByte(0x6147FD45, 105) == 0x32B92B1E;
    assert Crc32.ByteBits(108) == 108;
    assert Crc32.UpdateByte(0x32B92B1E, 108) == 0xBE39A93B;
    assert Crc32.ByteBits(108) == 108;
    assert Crc32.UpdateByte(0xBE39A93B, 108) == 0xF5B1FDFE;
    assert Crc32.ByteBits(32) == 32;
    assert Crc32.UpdateByte(0xF5B1FDFE, 32) == 0x619E4E2E;
    assert Crc32.ByteBits(98) == 98;
    assert Crc32.UpdateByte(0x619E4E2E, 98) == 0x7F0B93F5;
    assert Crc32.ByteBits(101) == 101;
    assert Crc32.UpdateByte(0x7F0B93F5, 101) == 0xF07098D7;
    assert Crc32.ByteBits(33) == 33;
    assert Crc32.UpdateByte(0xF07098D7, 33) == 0x542E27B1;
  }

  /** The CRC the tests expect for type "RuSt" and the secret message. */
  lemma SourceTestChecksum()
    ensures CrcChecksum(RuSt, SecretMessage) == 2882656334
  {
    CrcChecksumStreams(RuSt, SecretMessage);
    TypeRegister();
    RegisterAfterPart1();
    RegisterAfterPart2();
    RegisterAfterPart3();
    RegisterAfterPart4();
    RegisterAfterPart5();
    RegisterAfterPart6();
    Crc32.UpdateAppend(0x2B7BF6C3, Part1, Part2);
    Crc32.UpdateAppend(0x2B7BF6C3, Part1 + Part2, Part3);
    Crc32.UpdateAppend(0x2B7BF6C3, Part1 + Part2 + Part3, Part4);
    Crc32.UpdateAppend(0x2B7BF6C3, Part1 + Part2 + Part3 + Part4, Part5);
    Crc32.UpdateAppend(0x2B7BF6C3, Part1 + Part2 + Part3 + Part4 + Part5, Part6);
  }

  /** The wire bytes the tests assemble: length 42, "RuSt", the message, then the given CRC. */
  function SourceTestBytes(crc: u32): seq<u8>
  {
    ToBeBytes(42) + RuSt.Bytes() + SecretMessage + ToBeBytes(crc)
  }

  /** Test bytes carrying a given CRC are the wire encoding of the test chunk with that CRC. */
  lemma SourceTestLayout(crc: u32)
    ensures IsWireEncoding(SourceTestBytes(crc), Chunk(RuSt, SecretMessage, crc))
  {
    var b := SourceTestBytes(crc);
    assert |SecretMessage| == 42;
    assert TruncateToU32(42) == 42;
    assert b[..4] == ToBeBytes(42);
    assert b[4..8] == RuSt.Bytes();
    assert b[8..50] == SecretMessage;
    assert b[50..] == ToBeBytes(crc);
  }

  /**
   * The chunk tests: `new` gives length 42 and CRC 2882656334, the assembled
   * bytes parse to that chunk, whose type prints as "RuSt", and the same bytes
   * with CRC 2882656333 are refused.
   */
  lemma SourceTestChunks()
    ensures New(RuSt, SecretMessage).Length() == 42
    ensures New(RuSt, SecretMessage).crc == 2882656334
    ensures TryFrom(SourceTestBytes(2882656334)) == Ok(New(RuSt, SecretMessage))
    ensures TryFrom(SourceTestBytes(2882656333)).Err?
    ensures New(RuSt, SecretMessage).chunkType.ToString() == "RuSt"
  {
    SourceTestChecksum();
    var c := New(RuSt, SecretMessage);
    SourceTestLayout(2882656334);
    RoundTrip(c, SourceTestBytes(2882656334));
    CorruptedCrcRejected(c, SourceTestBytes(2882656334), 2882656333);
    assert SourceTestBytes(2882656334)[..50] + ToBeBytes(2882656333) == SourceTestBytes(2882656333);
  }
}
