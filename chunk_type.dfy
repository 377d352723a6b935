/**
  The four-byte chunk type tag (`ChunkType` in src/chunk_type.rs), named
  according to the conventions of section 5.4 of the PNG Specification:
  every byte is an ASCII letter, and bit 5 (0x20, the lower-case bit) of
  each byte carries one property of the chunk.
 */
module ChunkTypes {

  import opened Wrappers
  import opened BigEndian
  import Utf8

  /** The two ways construction can fail (the source reports each with a fixed message). */
  datatype ChunkTypeError =
    | InvalidByte   // a byte is not an ASCII letter
    | WrongLength   // the text is not four bytes long

  /** Bit 5 of a tag byte: clear in upper-case letters, set in lower-case ones. */
  const PropertyBit: bv8 := 0x20

  /** The byte test of `try_from`: reject below 'A', between 'Z' and 'a', and above 'z'. */
  predicate IsAsciiLetter(b: bv8)
    ensures IsAsciiLetter(b) <==> 0x41 <= b <= 0x5A || 0x61 <= b <= 0x7A
  {
    !(b < 65 || (b >= 91 && b <= 96) || b > 122)
  }

  predicate IsLetterCode(n: int) {
    'A' as int <= n <= 'Z' as int || 'a' as int <= n <= 'z' as int
  }

  predicate IsUpperCode(n: int) {
    'A' as int <= n <= 'Z' as int
  }

  /**
    A chunk type tag. The source stores the text form, the bytes and four
    two-valued enums; each enum is collapsed to the boolean its accessor
    returns:
      critical          ancillary_bit == Ancillary::Critical
      public            private_bit == Private::Private (the source's enum
                        names are swapped; the accessor's answer is right)
      reservedBitValid  reserved_bit == Reserved::Reserved
      safeToCopy        safe_to_copy_bit == SafeToCopy::SafeToCopy
   */
  datatype ChunkType = ChunkType(
    stringValue: seq<char>,
    numericValue: Bytes4,
    critical: bool,
    public: bool,
    reservedBitValid: bool,
    safeToCopy: bool)
  {
    /**
      The invariant `try_from`, the only way to build a tag, establishes:
      four letters, the text spelling the bytes, each flag read off bit 5.
     */
    ghost predicate Valid() {
      && |stringValue| == 4
      && (forall i :: 0 <= i < 4 ==> IsAsciiLetter(numericValue[i]))
      && (forall i :: 0 <= i < 4 ==> stringValue[i] as int == numericValue[i] as int)
      && critical == (numericValue[0] & PropertyBit == 0)
      && public == (numericValue[1] & PropertyBit == 0)
      && reservedBitValid == (numericValue[2] & PropertyBit == 0)
      && safeToCopy == (numericValue[3] & PropertyBit != 0)
    }

    /** `bytes()`: the four tag bytes, all of them ASCII letters. */
    function Bytes(): (r: Bytes4)
      requires Valid()
      ensures forall i :: 0 <= i < 4 ==> IsAsciiLetter(r[i])
    {
      numericValue
    }

    /** `is_critical()`: bit 5 of the first byte is clear, i.e. it is upper case. */
    function IsCritical(): (r: bool)
      requires Valid()
      ensures r <==> Bytes()[0] & PropertyBit == 0
      ensures r <==> IsUpperCode(stringValue[0] as int)
    {
      critical
    }

    /** `is_public()`: bit 5 of the second byte is clear, i.e. it is upper case. */
    function IsPublic(): (r: bool)
      requires Valid()
      ensures r <==> Bytes()[1] & PropertyBit == 0
      ensures r <==> IsUpperCode(stringValue[1] as int)
    {
      public
    }

    /** `is_reserved_bit_valid()`: bit 5 of the third byte is clear, i.e. it is upper case. */
    function IsReservedBitValid(): (r: bool)
      requires Valid()
      ensures r <==> Bytes()[2] & PropertyBit == 0
      ensures r <==> IsUpperCode(stringValue[2] as int)
    {
      reservedBitValid
    }

    /** `is_safe_to_copy()`: bit 5 of the fourth byte is set, i.e. it is lower case. */
    function IsSafeToCopy(): (r: bool)
      requires Valid()
      ensures r <==> Bytes()[3] & PropertyBit != 0
      ensures r <==> !IsUpperCode(stringValue[3] as int)
    {
      safeToCopy
    }

    /** `is_valid()`: only the reserved bit is consulted. */
    function IsValid(): (r: bool)
      requires Valid()
      ensures r == IsReservedBitValid()
      ensures r <==> Bytes()[2] & PropertyBit == 0
    {
      IsReservedBitValid()
    }

    /** `to_string()`: the four bytes read as characters, case preserved. */
    function ToString(): (s: string)
      requires Valid()
      ensures |s| == 4
      ensures forall i :: 0 <= i < 4 ==> s[i] as int == Bytes()[i] as int
    {
      stringValue
    }
  }

  /**
    `ChunkType::try_from([u8; 4])`: fails with `InvalidByte` unless every
    byte is an ASCII letter; otherwise builds the tag, decoding the flags.
   */
  function TryFrom(value: Bytes4): (r: Result<ChunkType, ChunkTypeError>)
    ensures r.Ok? <==> forall i :: 0 <= i < 4 ==> IsAsciiLetter(value[i])
    ensures r.Err? ==> r.error == InvalidByte
    ensures r.Ok? ==> r.value.Valid() && r.value.Bytes() == value
  {
    if exists i :: 0 <= i < 4 && !IsAsciiLetter(value[i]) then
      Err(InvalidByte)
    else
      var stringValue := [ByteChar(value[0]), ByteChar(value[1]), ByteChar(value[2]), ByteChar(value[3])];
      Ok(ChunkType(
        stringValue,
        value,
        value[0] & PropertyBit == 0,
        value[1] & PropertyBit == 0,
        value[2] & PropertyBit == 0,
        value[3] & PropertyBit != 0))
  }

  /** `b as char`: the character whose code point is the byte's value. */
  function ByteChar(b: bv8): (c: char)
    ensures c as int == b as int
  {
    (b as int) as char
  }

  /**
    `ChunkType::from_str`: the string's UTF-8 bytes must number exactly four
    (`s.len()` counts bytes), and are then handed to `try_from`.
   */
  function FromStr(s: string): (r: Result<ChunkType, ChunkTypeError>)
    ensures |Utf8.Encode(s)| != 4 ==> r == Err(WrongLength)
    ensures |Utf8.Encode(s)| == 4 ==> r == TryFrom(Utf8.Encode(s))
  {
    var bytes := Utf8.Encode(s);
    if |bytes| != 4 then Err(WrongLength) else TryFrom(bytes)
  }

  /** A letter byte, read as a number, is the code of an ASCII letter, and conversely. */
  lemma LetterByteCode(b: bv8)
    ensures IsAsciiLetter(b) <==> IsLetterCode(b as int)
  {
  }

  /**
    Every valid tag is exactly what `try_from` builds from its bytes: the
    text and the four flags are functions of the bytes.
   */
  lemma TryFromOwnBytes(t: ChunkType)
    requires t.Valid()
    ensures TryFrom(t.Bytes()) == Ok(t)
  {
    var r := TryFrom(t.Bytes());
    assert r.Ok?;
    assert r.value.stringValue == t.stringValue;
  }

  /**
    The derived equality compares every field, yet two valid tags are equal
    exactly when their bytes are.
   */
  lemma EqualIffSameBytes(t1: ChunkType, t2: ChunkType)
    requires t1.Valid() && t2.Valid()
    ensures t1 == t2 <==> t1.Bytes() == t2.Bytes()
  {
    if t1.Bytes() == t2.Bytes() {
      TryFromOwnBytes(t1);
      TryFromOwnBytes(t2);
    }
  }

  /**
    `from_str` succeeds exactly on four-character strings of ASCII letters;
    a string of any other length, or holding any other character, is
    refused. A non-ASCII character either makes the byte length differ from
    four or brings in a byte that is not a letter.
   */
  lemma FromStrAccepts(s: string)
    ensures FromStr(s).Ok? <==> |s| == 4 && forall i :: 0 <= i < 4 ==> IsLetterCode(s[i] as int)
    ensures FromStr(s) == Err(WrongLength) <==> |Utf8.Encode(s)| != 4
  {
    var bytes := Utf8.Encode(s);
    if Utf8.IsAscii(s) {
      if |s| == 4 {
        forall i | 0 <= i < 4
          ensures IsAsciiLetter(bytes[i]) <==> IsLetterCode(s[i] as int)
        {
          LetterByteCode(bytes[i]);
        }
      }
    } else {
      var i :| 0 <= i < |s| && s[i] as int >= 0x80;
      assert !IsLetterCode(s[i] as int);
      if |bytes| == 4 {
        var k :| 0 <= k < |bytes| && bytes[k] >= 0x80;
        assert !IsAsciiLetter(bytes[k]);
      }
    }
  }

  /** A four-character ASCII string with a character that is not a letter is refused byte by byte. */
  lemma NonLetterRefused(s: string, i: nat)
    requires |s| == 4 && Utf8.IsAscii(s)
    requires i < 4 && !IsLetterCode(s[i] as int)
    ensures FromStr(s) == Err(InvalidByte)
  {
    var bytes := Utf8.Encode(s);
    assert bytes[i] as int == s[i] as int;
    LetterByteCode(bytes[i]);
  }

  /** Text to tag and back: a string that `from_str` accepts is what `to_string` gives back. */
  lemma FromStrThenToString(s: string)
    requires FromStr(s).Ok?
    ensures FromStr(s).value.ToString() == s
  {
    FromStrAccepts(s);
    var t := FromStr(s).value;
    forall i | 0 <= i < 4
      ensures t.ToString()[i] == s[i]
    {
      assert Utf8.Encode(s)[i] as int == s[i] as int;
    }
  }

  /** Tag to text and back: `from_str(t.to_string())` rebuilds the same tag. */
  lemma ToStringThenFromStr(t: ChunkType)
    requires t.Valid()
    ensures FromStr(t.ToString()) == Ok(t)
  {
    var s := t.ToString();
    assert Utf8.IsAscii(s) by {
      forall i | 0 <= i < 4
        ensures s[i] as int < 0x80
      {
        assert s[i] as int == t.Bytes()[i] as int;
        LetterByteCode(t.Bytes()[i]);
      }
    }
    var bytes := Utf8.Encode(s);
    forall i | 0 <= i < 4
      ensures bytes[i] == t.Bytes()[i]
    {
      assert bytes[i] as int == t.Bytes()[i] as int;
    }
    assert bytes == t.Bytes();
    TryFromOwnBytes(t);
  }
}
