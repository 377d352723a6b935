/**
  The unit tests of src/chunk_type.rs and src/chunk.rs, stated as lemmas
  about the model. The chunk they share has type "RuSt" and the 42-byte
  message "This is where your secret message will be!".
 */
module UnitCases {

  import opened Wrappers
  import opened BigEndian
  import opened ChunkTypes
  import Chunks
  import Crc32

  /** "RuSt" as bytes. */
  const RuSt: Bytes4 := [82, 117, 83, 116]

  /**
    "This is where your secret message will be!" as bytes, cut where the
    CRC computation below takes it in pieces.
   */
  const Message: seq<bv8> :=
    [84, 104, 105, 115] +                          // "This"
    ([32, 105, 115, 32, 119, 104, 101, 114] +      // " is wher"
    ([101, 32, 121, 111, 117, 114, 32, 115] +      // "e your s"
    ([101, 99, 114, 101, 116, 32, 109, 101] +      // "ecret me"
    ([115, 115, 97, 103, 101, 32, 119, 105] +      // "ssage wi"
     [108, 108, 32, 98, 101, 33]))))               // "ll be!"

  /** A four-letter tag spelled by its own bytes is what `from_str` makes of its text. */
  lemma FromStrOfTag(bytes: Bytes4, s: string)
    requires ChunkTypes.TryFrom(bytes).Ok?
    requires |s| == 4 && forall i :: 0 <= i < 4 ==> s[i] as int == bytes[i] as int
    ensures FromStr(s) == ChunkTypes.TryFrom(bytes)
  {
    var t := ChunkTypes.TryFrom(bytes).value;
    assert t.ToString() == s;
    ToStringThenFromStr(t);
  }

  /** `test_chunk_type_from_bytes` and `test_chunk_type_from_str`. */
  lemma ChunkTypeFromBytesAndStr()
    ensures ChunkTypes.TryFrom(RuSt).Ok? && ChunkTypes.TryFrom(RuSt).value.Bytes() == RuSt
    ensures FromStr("RuSt") == ChunkTypes.TryFrom(RuSt)
  {
    FromStrOfTag(RuSt, "RuSt");
  }

  /** `test_chunk_type_is_critical`, `..._is_not_public`, `..._is_reserved_bit_valid`, `..._is_safe_to_copy`, `test_valid_chunk_is_valid`. */
  lemma RuStFlags()
    ensures FromStr("RuSt").Ok?
    ensures var t := FromStr("RuSt").value;
      t.IsCritical() && !t.IsPublic() && t.IsReservedBitValid() && t.IsSafeToCopy() && t.IsValid()
  {
    FromStrOfTag(RuSt, "RuSt");
  }

  /** `test_chunk_type_is_not_critical`: a lower-case first letter. */
  lemma LowerFirstLetterNotCritical()
    ensures FromStr("ruSt").Ok? && !FromStr("ruSt").value.IsCritical()
  {
    FromStrOfTag([114, 117, 83, 116], "ruSt");
  }

  /** `test_chunk_type_is_public`: an upper-case second letter. */
  lemma UpperSecondLetterPublic()
    ensures FromStr("RUSt").Ok? && FromStr("RUSt").value.IsPublic()
  {
    FromStrOfTag([82, 85, 83, 116], "RUSt");
  }

  /** `test_chunk_type_is_reserved_bit_invalid` and `test_invalid_chunk_is_valid`: a lower-case third letter. */
  lemma LowerThirdLetterInvalid()
    ensures FromStr("Rust").Ok?
    ensures !FromStr("Rust").value.IsReservedBitValid() && !FromStr("Rust").value.IsValid()
  {
    FromStrOfTag([82, 117, 115, 116], "Rust");
  }

  /** `test_chunk_type_is_unsafe_to_copy`: an upper-case fourth letter. */
  lemma UpperFourthLetterUnsafe()
    ensures FromStr("RuST").Ok? && !FromStr("RuST").value.IsSafeToCopy()
  {
    FromStrOfTag([82, 117, 83, 84], "RuST");
  }

  /** `test_invalid_chunk_is_valid`: a digit is refused. */
  lemma DigitRefused()
    ensures FromStr("Ru1t") == Err(InvalidByte)
  {
    NonLetterRefused("Ru1t", 2);
  }

  /** `test_chunk_type_string`. */
  lemma TagString()
    ensures FromStr("RuSt").Ok? && FromStr("RuSt").value.ToString() == "RuSt"
  {
    FromStrOfTag(RuSt, "RuSt");
  }

  /** The bytes the chunk CRC covers: the type followed by the message. */
  const Covered: seq<bv8> := RuSt + Message

  lemma Piece0() ensures Crc32.Update(0xFFFF_FFFF, RuSt) == 0x2B7B_F6C3 { }
  lemma Piece1() ensures Crc32.Update(0x2B7B_F6C3, [84, 104, 105, 115]) == 0xCA5E_E5F2 { }
  lemma Piece2() ensures Crc32.Update(0xCA5E_E5F2, [32, 105, 115, 32, 119, 104, 101, 114]) == 0xC475_B53E { }
  lemma Piece3() ensures Crc32.Update(0xC475_B53E, [101, 32, 121, 111, 117, 114, 32, 115]) == 0x9295_3043 { }
  lemma Piece4() ensures Crc32.Update(0x9295_3043, [101, 99, 114, 101, 116, 32, 109, 101]) == 0xEDEA_CE9A { }
  lemma Piece5() ensures Crc32.Update(0xEDEA_CE9A, [115, 115, 97, 103, 101, 32, 119, 105]) == 0x32B9_2B1E { }
  lemma Piece6() ensures Crc32.Update(0x32B9_2B1E, [108, 108, 32, 98, 101, 33]) == 0x542E_27B1 { }

  /** The register after absorbing "RuSt" and the message, piece by piece. */
  lemma MessageRegister()
    ensures Crc32.Update(0xFFFF_FFFF, Covered) == 0x542E_27B1
  {
    var m1: seq<bv8> := [32, 105, 115, 32, 119, 104, 101, 114];
    var m2: seq<bv8> := [101, 32, 121, 111, 117, 114, 32, 115];
    var m3: seq<bv8> := [101, 99, 114, 101, 116, 32, 109, 101];
    var m4: seq<bv8> := [115, 115, 97, 103, 101, 32, 119, 105];
    var m5: seq<bv8> := [108, 108, 32, 98, 101, 33];
    Piece0(); Piece1(); Piece2(); Piece3(); Piece4(); Piece5(); Piece6();
    Crc32.UpdateAppend(0xFFFF_FFFF, RuSt, Message);
    Crc32.UpdateAppend(0x2B7B_F6C3, [84, 104, 105, 115], m1 + (m2 + (m3 + (m4 + m5))));
    Crc32.UpdateAppend(0xCA5E_E5F2, m1, m2 + (m3 + (m4 + m5)));
    Crc32.UpdateAppend(0xC475_B53E, m2, m3 + (m4 + m5));
    Crc32.UpdateAppend(0x9295_3043, m3, m4 + m5);
    Crc32.UpdateAppend(0xEDEA_CE9A, m4, m5);
  }

  /** The checksum of "RuSt" and the message. */
  lemma MessageChecksum()
    ensures Crc32.Checksum(RuSt + Message) == 2882656334
  {
    MessageRegister();
    assert (0x542E_27B1 as bv32) ^ 0xFFFF_FFFF == 0xABD1_D84E;
    assert RegisterValue(0xABD1_D84E) == 2882656334;
  }

  /** `test_new_chunk` and `test_chunk_crc`: length 42, CRC 2882656334. */
  lemma NewChunk()
    ensures ChunkTypes.TryFrom(RuSt).Ok?
    ensures var c := Chunks.Chunk(ChunkTypes.TryFrom(RuSt).value, Message);
      c.Length() == 42 && c.Crc() == 2882656334
  {
    var t := ChunkTypes.TryFrom(RuSt).value;
    var c := Chunks.Chunk(t, Message);
    assert |Message| == 42;
    assert c.Length() == 42;
    assert t.Bytes() == RuSt;
    MessageChecksum();
    assert c.Crc() == Crc32.Checksum(RuSt + Message);
  }

  lemma LengthField()
    ensures ToBeBytes(42) == [0, 0, 0, 42]
  {
    var field: Bytes4 := [0, 0, 0, 42];
    assert FromBeBytes(field) == 42;
    ToFromBeBytes(field);
  }

  lemma CrcFields()
    ensures ToBeBytes(2882656334) == [0xAB, 0xD1, 0xD8, 0x4E]
    ensures ToBeBytes(2882656333) == [0xAB, 0xD1, 0xD8, 0x4D]
  {
    ToFromBeBytes([0xAB, 0xD1, 0xD8, 0x4E]);
    ToFromBeBytes([0xAB, 0xD1, 0xD8, 0x4D]);
  }

  /** The test frame with `crc` in its CRC field. */
  lemma TestFrame(crc: U32)
    ensures ChunkTypes.TryFrom(RuSt).Ok?
    ensures var c := Chunks.Chunk(ChunkTypes.TryFrom(RuSt).value, Message);
      Chunks.FrameWith(c, crc) + [] == [0, 0, 0, 42] + RuSt + Message + ToBeBytes(crc)
  {
    NewChunk();
    LengthField();
  }

  /** The test frame, whatever its CRC field holds, parses against the CRC 2882656334. */
  lemma TestFrameParses(crc: U32)
    ensures ChunkTypes.TryFrom(RuSt).Ok?
    ensures var c := Chunks.Chunk(ChunkTypes.TryFrom(RuSt).value, Message);
      Chunks.TryFrom([0, 0, 0, 42] + RuSt + Message + ToBeBytes(crc))
        == if crc == 2882656334 then Chunks.Parsed(c) else Chunks.Failed(Chunks.CrcNotMatching(crc, 2882656334))
  {
    var c := Chunks.Chunk(ChunkTypes.TryFrom(RuSt).value, Message);
    NewChunk();
    assert c.Valid() && |c.data| < U32Range && c.Crc() == 2882656334;
    Chunks.ParseFrameWith(c, crc, []);
    TestFrame(crc);
  }

  /**
    `test_valid_chunk_from_bytes`: the frame 0,0,0,42 ++ "RuSt" ++ message
    ++ the bytes of 2882656334 parses to the chunk of length 42, type
    "RuSt" and CRC 2882656334.
   */
  lemma ValidChunkFromBytes()
    ensures ChunkTypes.TryFrom(RuSt).Ok?
    ensures var c := Chunks.Chunk(ChunkTypes.TryFrom(RuSt).value, Message);
      && Chunks.TryFrom([0, 0, 0, 42] + RuSt + Message + [0xAB, 0xD1, 0xD8, 0x4E]) == Chunks.Parsed(c)
      && c.Length() == 42 && c.chunkType.ToString() == "RuSt" && c.Crc() == 2882656334
  {
    NewChunk();
    ChunkTypeFromBytesAndStr();
    TagString();
    CrcFields();
    TestFrameParses(2882656334);
  }

  /** `test_invalid_chunk_from_bytes`: the same frame with CRC 2882656333 is refused. */
  lemma InvalidChunkFromBytes()
    ensures Chunks.TryFrom([0, 0, 0, 42] + RuSt + Message + [0xAB, 0xD1, 0xD8, 0x4D])
      == Chunks.Failed(Chunks.CrcNotMatching(2882656333, 2882656334))
  {
    CrcFields();
    TestFrameParses(2882656333);
  }
}
