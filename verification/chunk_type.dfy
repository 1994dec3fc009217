/**
 * PNG chunk types: four ASCII letters whose case carries the four property
 * bits of section 5.4 of the PNG specification (bit 5 of each byte, clear for
 * an uppercase letter).
 */
module ChunkTypes {
  import opened Bytes
  import opened Wrappers
  import Utf8

  predicate IsAsciiUppercase(b: u8)
  {
    'A' as u8 <= b <= 'Z' as u8
  }

  predicate IsAsciiLowercase(b: u8)
  {
    'a' as u8 <= b <= 'z' as u8
  }

  predicate IsAsciiLetter(b: u8)
  {
    IsAsciiLowercase(b) || IsAsciiUppercase(b)
  }

  predicate IsLetterChar(c: char)
  {
    'A' <= c <= 'Z' || 'a' <= c <= 'z'
  }

  /** The letter test of `TryFrom<[u8; 4]>`, applied byte after byte as `iter().all` does. */
  predicate AllLetters(s: seq<u8>)
    decreases |s|
  {
    |s| == 0 || (IsAsciiLetter(s[0]) && AllLetters(s[1..]))
  }

  /** Four bytes, each an ASCII letter: the only codes a chunk type can be built from. */
  type Code = s: seq<u8> | |s| == 4 && forall i | 0 <= i < 4 :: IsAsciiLetter(s[i])
    witness [73, 69, 78, 68]

  /** Property bit of a byte (section 5.4): bit 5, value 32. */
  function PropertyBit(b: u8): bool
  {
    b as int / 32 % 2 == 1
  }

  datatype ChunkType = ChunkType(code: Code) {

    function Bytes(): Bytes4
    {
      code
    }

    /** The `Display` text: each byte read as its ASCII character. */
    function ToString(): string
    {
      [code[0] as char, code[1] as char, code[2] as char, code[3] as char]
    }

    predicate IsIend()
    {
      ToString() == "IEND"
    }

    predicate IsCritical()
    {
      IsAsciiUppercase(code[0])
    }

    predicate IsPublic()
    {
      IsAsciiUppercase(code[1])
    }

    predicate IsReservedBitValid()
    {
      IsAsciiUppercase(code[2])
    }

    predicate IsSafeToCopy()
    {
      IsAsciiLowercase(code[3])
    }

    predicate IsValid()
    {
      IsReservedBitValid()
    }
  }

  /** The error of every failed conversion; it keeps the rejected bytes. */
  datatype InvalidChunkType = InvalidChunkType(bytes: seq<u8>)

  /** `iter().all(is letter)` holds exactly when every byte is a letter. */
  lemma {:induction false} AllLettersIff(s: seq<u8>)
    ensures AllLetters(s) <==> forall i | 0 <= i < |s| :: IsAsciiLetter(s[i])
    decreases |s|
  {
    if |s| > 0 {
      AllLettersIff(s[1..]);
      assert forall i | 1 <= i < |s| :: s[i] == s[1..][i - 1];
    }
  }

  /** `TryFrom<[u8; 4]>`: accepts exactly the all-letter arrays and keeps them unchanged. */
  function TryFromArray(bytes: Bytes4): (r: Result<ChunkType, InvalidChunkType>)
    ensures r.Ok? <==> forall i | 0 <= i < 4 :: IsAsciiLetter(bytes[i])
    ensures r.Ok? ==> r.value.Bytes() == bytes
    ensures r.Err? ==> r.error.bytes == bytes
  {
    AllLettersIff(bytes);
    if AllLetters(bytes) then Ok(ChunkType(bytes)) else Err(InvalidChunkType(bytes))
  }

  /** `TryFrom<Vec<u8>>`: any length other than four is refused before the letter test. */
  function TryFromVec(bytes: seq<u8>): (r: Result<ChunkType, InvalidChunkType>)
    ensures |bytes| != 4 ==> r == Err(InvalidChunkType(bytes))
    ensures r.Ok? <==> |bytes| == 4 && forall i | 0 <= i < 4 :: IsAsciiLetter(bytes[i])
    ensures r.Ok? ==> r.value.Bytes() == bytes
  {
    if |bytes| != 4 then Err(InvalidChunkType(bytes)) else TryFromArray(bytes)
  }

  /**
   * `FromStr`: the string's UTF-8 bytes go through `TryFrom<Vec<u8>>`. It
   * succeeds exactly on four-letter ASCII strings, and then prints back as
   * the same string.
   */
  function FromStr(s: string): (r: Result<ChunkType, InvalidChunkType>)
    ensures r.Ok? <==> |s| == 4 && forall i | 0 <= i < 4 :: IsLetterChar(s[i])
    ensures r.Ok? ==> r.value.ToString() == s
  {
    var bytes := Utf8.Encode(s);
    FromStrBytes(s);
    TryFromVec(bytes)
  }

  /** How the UTF-8 bytes of a string relate to its characters, for `FromStr`. */
  lemma FromStrBytes(s: string)
    ensures (|Utf8.Encode(s)| == 4 && forall i | 0 <= i < 4 :: IsAsciiLetter(Utf8.Encode(s)[i]))
        <==> (|s| == 4 && forall i | 0 <= i < 4 :: IsLetterChar(s[i]))
    ensures |s| == 4 && (forall i | 0 <= i < 4 :: IsLetterChar(s[i])) ==>
      forall i | 0 <= i < 4 :: Utf8.Encode(s)[i] as int == s[i] as int
  {
    var bytes := Utf8.Encode(s);
    if Utf8.IsAscii(s) {
      Utf8.EncodeAscii(s);
    } else {
      var k :| 0 <= k < |s| && s[k] as int >= 0x80;
      Utf8.EncodeNonAscii(s, k);
    }
  }

  /** Text round trip from the other side: printing a chunk type and parsing the text gives it back. */
  lemma ToStringRoundTrip(t: ChunkType)
    ensures FromStr(t.ToString()) == Ok(t)
  {
    var s := t.ToString();
    FromStrBytes(s);
    assert Utf8.Encode(s) == t.code;
  }

  /**
   * The case tests agree with section 5.4: a property holds exactly when bit 5
   * of its byte is clear, except safe-to-copy, which holds when it is set.
   */
  lemma PropertyBitsFromCase(t: ChunkType)
    ensures t.IsCritical() <==> !PropertyBit(t.code[0])
    ensures t.IsPublic() <==> !PropertyBit(t.code[1])
    ensures t.IsReservedBitValid() <==> !PropertyBit(t.code[2])
    ensures t.IsSafeToCopy() <==> PropertyBit(t.code[3])
  {
  }

  /** Validity is decided by the third letter alone: the other three letters may have any case. */
  lemma ValidityIsThirdLetter(t: ChunkType, u: ChunkType)
    requires t.code[2] == u.code[2]
    ensures t.IsValid() == u.IsValid()
    ensures t.IsValid() <==> IsAsciiUppercase(t.code[2])
  {
  }

  /** `is_iend` compares text, which is the same as comparing the bytes with "IEND". */
  lemma IsIendIff(t: ChunkType)
    ensures t.IsIend() <==> t.Bytes() == [73, 69, 78, 68]
  {
    if t.IsIend() {
      assert t.ToString()[0] == 'I';
    }
  }

  /** Equality of chunk types, as derived in the source, is equality of their four bytes. */
  lemma EqualIffSameBytes(t: ChunkType, u: ChunkType)
    ensures t == u <==> t.Bytes() == u.Bytes()
  {
  }

  /** The bytes behind a chunk type parsed from text are the text's code points. */
  lemma FromStrCode(s: string)
    requires FromStr(s).Ok?
    ensures forall i | 0 <= i < 4 :: FromStr(s).value.code[i] as int == s[i] as int
  {
    var t := FromStr(s).value;
    assert t.ToString() == s;
    assert forall i | 0 <= i < 4 :: t.ToString()[i] == t.code[i] as char;
  }

  /** The conversion examples of the source's unit tests. */
  lemma ConversionExamples()
    ensures TryFromArray([82, 117, 83, 116]).Ok?
    ensures TryFromArray([82, 117, 83, 116]).value.Bytes() == [82, 117, 83, 116]
    ensures FromStr("RuSt") == TryFromArray([82, 117, 83, 116])
    ensures FromStr("Ru1t").Err?
    ensures FromStr("RuSt").Ok? && FromStr("RuSt").value.ToString() == "RuSt"
  {
    FromStrCode("RuSt");
    var code := FromStr("RuSt").value.code;
    assert code[0] == 82 && code[1] == 117 && code[2] == 83 && code[3] == 116;
    assert code == [82, 117, 83, 116];
  }

  /** "RuSt", the source's running example: critical, private, reserved bit valid, safe to copy, valid. */
  lemma RuStProperties()
    ensures FromStr("RuSt").Ok?
    ensures FromStr("RuSt").value.IsCritical() && !FromStr("RuSt").value.IsPublic()
    ensures FromStr("RuSt").value.IsReservedBitValid() && FromStr("RuSt").value.IsSafeToCopy()
    ensures FromStr("RuSt").value.IsValid()
  {
    FromStrCode("RuSt");
  }

  /** A lower-case first letter makes the type ancillary. */
  lemma AncillaryExample()
    ensures FromStr("ruSt").Ok? && !FromStr("ruSt").value.IsCritical()
  {
    FromStrCode("ruSt");
  }

  /** An upper-case second letter makes the type public. */
  lemma PublicExample()
    ensures FromStr("RUSt").Ok? && FromStr("RUSt").value.IsPublic()
  {
    FromStrCode("RUSt");
  }

  /** A lower-case third letter sets the reserved bit, so the type parses but is not valid. */
  lemma ReservedBitExample()
    ensures FromStr("Rust").Ok?
    ensures !FromStr("Rust").value.IsReservedBitValid() && !FromStr("Rust").value.IsValid()
  {
    FromStrCode("Rust");
  }

  /** An upper-case fourth letter makes the type unsafe to copy. */
  lemma UnsafeToCopyExample()
    ensures FromStr("RuST").Ok? && !FromStr("RuST").value.IsSafeToCopy()
  {
    FromStrCode("RuST");
  }
}
