/**
  One PNG chunk (`Chunk` in src/chunk.rs) and its frame, laid out as in
  section 5.3 of the PNG Specification:

    length (4 bytes, big-endian) ++ type (4) ++ data (length bytes) ++ CRC (4, big-endian)

  where the CRC covers the type and data bytes.
 */
module Chunks {

  import opened Wrappers
  import opened BigEndian
  import opened ChunkTypes
  import Crc32

  const DataTypeBytes: nat := 4
  const CrcBytes: nat := 4
  const DataLengthBytes: nat := 4
  /** The frame around the data: length, type and CRC fields. */
  const MetaDataBytes: nat := DataTypeBytes + CrcBytes + DataLengthBytes

  /** `Chunk::new(chunk_type, data)` is this constructor. */
  datatype Chunk = Chunk(chunkType: ChunkType, data: seq<bv8>)
  {
    ghost predicate Valid() {
      chunkType.Valid()
    }

    /** `length()`: the data length cast to `u32`, so it wraps past 2^32 - 1 bytes. */
    function Length(): (n: U32)
      ensures |data| < U32Range ==> n == |data|
    {
      |data| % U32Range
    }

    /** `crc()`: the CRC-32 of the type bytes followed by the data. */
    function Crc(): U32
      requires Valid()
    {
      Crc32.Checksum(chunkType.Bytes() + data)
    }

    /**
      `as_bytes()`: the frame. Four length bytes, four type bytes, the data,
      four CRC bytes, twelve bytes more than the data.
     */
    function AsBytes(): (r: seq<bv8>)
      requires Valid()
      ensures |r| == MetaDataBytes + |data|
      ensures r[..4] == ToBeBytes(Length())
      ensures r[4..8] == chunkType.Bytes()
      ensures r[8..8 + |data|] == data
      ensures r[8 + |data|..] == ToBeBytes(Crc())
    {
      Concat4(ToBeBytes(Length()), chunkType.Bytes(), data, ToBeBytes(Crc()));
      ToBeBytes(Length()) + chunkType.Bytes() + data + ToBeBytes(Crc())
    }
  }

  /** Where each of four concatenated pieces sits. */
  lemma Concat4(a: seq<bv8>, b: seq<bv8>, c: seq<bv8>, d: seq<bv8>)
    ensures |a + b + c + d| == |a| + |b| + |c| + |d|
    ensures (a + b + c + d)[..|a|] == a
    ensures (a + b + c + d)[|a|..|a| + |b|] == b
    ensures (a + b + c + d)[|a| + |b|..|a| + |b| + |c|] == c
    ensures (a + b + c + d)[|a| + |b| + |c|..] == d
  {
  }

  /** The error variants of `ChunkError`. */
  datatype ChunkError =
    | DataSampleSmall(size: nat)
    | ParsingDataLength
    | ParsingDataType
    | ParsingChunkType(cause: ChunkTypeError)
    | ParsingCrc
    | CrcNotMatching(parsed: U32, computed: U32)

  /**
    What `Chunk::try_from(&[u8])` does: returns a chunk, returns an error, or
    panics inside `split_at` (a Rust panic, not a returned error).
   */
  datatype ParseOutcome =
    | Parsed(chunk: Chunk)
    | Failed(error: ChunkError)
    | Panicked

  /** `s.split_at(mid)`: `None` stands for the panic when `mid` is past the end. */
  function SplitAt(s: seq<bv8>, mid: nat): (r: Option<(seq<bv8>, seq<bv8>)>)
    ensures r.Some? <==> mid <= |s|
    ensures r.Some? ==> r.value.0 + r.value.1 == s && |r.value.0| == mid
  {
    if mid <= |s| then Some((s[..mid], s[mid..])) else None
  }

  /** `<[u8; 4]>::try_from(slice)`: succeeds exactly on slices of length four. */
  function TryIntoArray(s: seq<bv8>): (r: Option<Bytes4>)
    ensures r.Some? <==> |s| == 4
    ensures r.Some? ==> r.value == s
  {
    if |s| == 4 then Some(s) else None
  }

  /**
    `Chunk::try_from(value)`, one `split_at` and early return at a time, up
    to the chunk type; `ParseBody` continues from there.
   */
  function TryFrom(value: seq<bv8>): (r: ParseOutcome)
    ensures r.Parsed? ==> r.chunk.Valid()
    ensures r.Failed? ==> r.error.DataSampleSmall? || r.error.ParsingChunkType? || r.error.CrcNotMatching?
  {
    if |value| < MetaDataBytes then Failed(DataSampleSmall(|value|))
    else
      match SplitAt(value, DataLengthBytes)
      case None => Panicked
      case Some((lengthField, afterLength)) =>
        match TryIntoArray(lengthField)
        case None => Failed(ParsingDataLength)
        case Some(lengthBytes) =>
          var dataLength := FromBeBytes(lengthBytes);
          match SplitAt(afterLength, DataTypeBytes)
          case None => Panicked
          case Some((typeField, afterType)) =>
            match TryIntoArray(typeField)
            case None => Failed(ParsingDataType)
            case Some(typeBytes) =>
              match ChunkTypes.TryFrom(typeBytes)
              case Err(e) => Failed(ParsingChunkType(e))
              case Ok(chunkType) => ParseBody(chunkType, dataLength, afterType)
  }

  /**
    The rest of `Chunk::try_from`: split off the data and the CRC field,
    then compare the stored CRC with the one computed over type and data.
   */
  function ParseBody(chunkType: ChunkType, dataLength: U32, rest: seq<bv8>): (r: ParseOutcome)
    requires chunkType.Valid()
    ensures r.Parsed? ==> r.chunk.Valid()
    ensures r.Failed? ==> r.error.CrcNotMatching?
  {
    match SplitAt(rest, dataLength)
    case None => Panicked
    case Some((data, afterData)) =>
      match SplitAt(afterData, CrcBytes)
      case None => Panicked
      case Some((crcField, _)) =>
        match TryIntoArray(crcField)
        case None => Failed(ParsingCrc)
        case Some(crcBytes) =>
          var crc := FromBeBytes(crcBytes);
          var chunk := Chunk(chunkType, data);
          var computed := chunk.Crc();
          if computed != crc then Failed(CrcNotMatching(crc, computed)) else Parsed(chunk)
  }

  /** The `u32` in a frame's length field: how many data bytes the frame declares. */
  function DeclaredLength(value: seq<bv8>): U32
    requires |value| >= DataLengthBytes
  {
    FromBeBytes(value[..4])
  }

  /** Every byte of the frame's type field is an ASCII letter. */
  predicate TypeFieldIsLetters(value: seq<bv8>)
    requires |value| >= DataLengthBytes + DataTypeBytes
  {
    forall i :: 4 <= i < 8 ==> IsAsciiLetter(value[i])
  }

  /** The frame holds its length and type fields, the declared data and the CRC field. */
  predicate IsComplete(value: seq<bv8>)
  {
    |value| >= MetaDataBytes && |value| >= MetaDataBytes + DeclaredLength(value)
  }

  /** The `u32` in the CRC field of a complete frame. */
  function StoredCrc(value: seq<bv8>): U32
    requires IsComplete(value)
  {
    var n: nat := DeclaredLength(value);
    FromBeBytes(value[8 + n..12 + n])
  }

  /** The chunk a complete frame with a well-formed type field describes. */
  function FramedChunk(value: seq<bv8>): (c: Chunk)
    requires IsComplete(value) && TypeFieldIsLetters(value)
    ensures c.Valid()
    ensures c.chunkType.Bytes() == value[4..8]
    ensures |c.data| == DeclaredLength(value)
  {
    var t := ChunkTypes.TryFrom(value[4..8]);
    Chunk(t.value, value[8..8 + DeclaredLength(value)])
  }

  /**
    The frame format, read field by field without the split steps: too
    short, a type field that is not four letters, a declared length that
    runs past the end, a CRC that does not match, or a chunk.
   */
  ghost function FrameSpec(value: seq<bv8>): ParseOutcome
  {
    if |value| < MetaDataBytes then Failed(DataSampleSmall(|value|))
    else if !TypeFieldIsLetters(value) then Failed(ParsingChunkType(InvalidByte))
    else if !IsComplete(value) then Panicked
    else
      var c := FramedChunk(value);
      if StoredCrc(value) == c.Crc() then Parsed(c)
      else Failed(CrcNotMatching(StoredCrc(value), c.Crc()))
  }

  /** After the type field: a panic unless the data and four CRC bytes follow, else the CRC check. */
  lemma ParseBodySpec(chunkType: ChunkType, n: U32, rest: seq<bv8>)
    requires chunkType.Valid()
    ensures |rest| < n + CrcBytes ==> ParseBody(chunkType, n, rest) == Panicked
    ensures |rest| >= n + CrcBytes ==>
      var c := Chunk(chunkType, rest[..n]);
      var stored := FromBeBytes(rest[n..n + 4]);
      ParseBody(chunkType, n, rest) == if stored == c.Crc() then Parsed(c) else Failed(CrcNotMatching(stored, c.Crc()))
  {
    if n + CrcBytes <= |rest| {
      assert rest[n..][..4] == rest[n..n + 4];
    }
  }

  /** Up to the type field: the length and type fields are the first eight bytes. */
  lemma TryFromHead(value: seq<bv8>)
    requires |value| >= MetaDataBytes
    ensures !TypeFieldIsLetters(value) ==> TryFrom(value) == Failed(ParsingChunkType(InvalidByte))
    ensures TypeFieldIsLetters(value) ==>
      TryFrom(value) == ParseBody(ChunkTypes.TryFrom(value[4..8]).value, DeclaredLength(value), value[8..])
  {
    var afterLength := value[4..];
    assert afterLength[..4] == value[4..8];
    assert afterLength[4..] == value[8..];
  }

  /** `ParseBody` on the bytes after a frame's type field, in the frame's own terms. */
  lemma ParseBodyOfFrame(value: seq<bv8>)
    requires |value| >= MetaDataBytes && TypeFieldIsLetters(value)
    ensures !IsComplete(value) ==>
      ParseBody(ChunkTypes.TryFrom(value[4..8]).value, DeclaredLength(value), value[8..]) == Panicked
    ensures IsComplete(value) ==>
      var c := FramedChunk(value);
      ParseBody(ChunkTypes.TryFrom(value[4..8]).value, DeclaredLength(value), value[8..])
        == if StoredCrc(value) == c.Crc() then Parsed(c) else Failed(CrcNotMatching(StoredCrc(value), c.Crc()))
  {
    var n: nat := DeclaredLength(value);
    var rest := value[8..];
    var t := ChunkTypes.TryFrom(value[4..8]).value;
    ParseBodySpec(t, n, rest);
    if IsComplete(value) {
      FrameFieldsAfterType(value);
    }
  }

  /** The data and CRC fields, located from the bytes after the type field. */
  lemma FrameFieldsAfterType(value: seq<bv8>)
    requires IsComplete(value) && TypeFieldIsLetters(value)
    ensures FramedChunk(value).data == value[8..][..DeclaredLength(value)]
    ensures StoredCrc(value) == FromBeBytes(value[8..][DeclaredLength(value)..DeclaredLength(value) + 4])
  {
    var n: nat := DeclaredLength(value);
    DropThenSlice(value, 8, n);
    assert FramedChunk(value).data == value[8..8 + n];
    assert StoredCrc(value) == FromBeBytes(value[8 + n..12 + n]);
  }

  /** Slicing after a drop is slicing further along. */
  lemma DropThenSlice(s: seq<bv8>, k: nat, n: nat)
    requires k + n + CrcBytes <= |s|
    ensures s[k..][..n] == s[k..k + n]
    ensures s[k..][n..n + 4] == s[k + n..k + n + 4]
  {
  }

  /** `try_from` parses exactly the frame format. */
  lemma TryFromMatchesSpec(value: seq<bv8>)
    ensures TryFrom(value) == FrameSpec(value)
  {
    if |value| >= MetaDataBytes {
      TryFromHead(value);
      if TypeFieldIsLetters(value) {
        ParseBodyOfFrame(value);
      }
    }
  }

  /** Inputs shorter than the twelve frame bytes, and only those, are refused with their length. */
  lemma TryFromTooShort(value: seq<bv8>)
    ensures TryFrom(value) == Failed(DataSampleSmall(|value|)) <==> |value| < MetaDataBytes
  {
    TryFromMatchesSpec(value);
  }

  /**
    Once the input is long enough, a type field that is not four ASCII
    letters, and only that, gives `ParsingChunkType`. The reserved bit is
    not looked at.
   */
  lemma TryFromBadType(value: seq<bv8>)
    requires |value| >= MetaDataBytes
    ensures TryFrom(value) == Failed(ParsingChunkType(InvalidByte)) <==> !TypeFieldIsLetters(value)
  {
    TryFromMatchesSpec(value);
  }

  /**
    `try_from` panics exactly when the type field is fine but the declared
    data and the four CRC bytes run past the end of the input.
   */
  lemma TryFromPanics(value: seq<bv8>)
    ensures TryFrom(value).Panicked? <==>
      |value| >= MetaDataBytes && TypeFieldIsLetters(value) && !IsComplete(value)
  {
    TryFromMatchesSpec(value);
  }

  /**
    `try_from` returns a chunk exactly when the frame is complete, its type
    field is four letters and the stored CRC matches the computed one; the
    chunk's type bytes are bytes 4..8 and its data the declared number of
    bytes after them.
   */
  lemma TryFromParsed(value: seq<bv8>)
    ensures TryFrom(value).Parsed? <==>
      && |value| >= MetaDataBytes && TypeFieldIsLetters(value) && IsComplete(value)
      && StoredCrc(value) == FramedChunk(value).Crc()
    ensures TryFrom(value).Parsed? ==> TryFrom(value).chunk == FramedChunk(value)
  {
    TryFromMatchesSpec(value);
  }

  /** A complete frame whose stored CRC differs from the computed one reports both values. */
  lemma TryFromCrcMismatch(value: seq<bv8>)
    requires |value| >= MetaDataBytes && TypeFieldIsLetters(value) && IsComplete(value)
    requires StoredCrc(value) != FramedChunk(value).Crc()
    ensures TryFrom(value) == Failed(CrcNotMatching(StoredCrc(value), FramedChunk(value).Crc()))
  {
    TryFromMatchesSpec(value);
  }

  /** A slice that lies inside the first part of a concatenation. */
  lemma SliceOfPrefix(a: seq<bv8>, b: seq<bv8>, i: nat, j: nat)
    requires i <= j <= |a|
    ensures (a + b)[i..j] == a[i..j]
  {
  }

  /** The frame of `c` with `crc`, right or wrong, in its CRC field. */
  function FrameWith(c: Chunk, crc: U32): (r: seq<bv8>)
    requires c.Valid()
    ensures crc == c.Crc() ==> r == c.AsBytes()
  {
    ToBeBytes(c.Length()) + c.chunkType.Bytes() + c.data + ToBeBytes(crc)
  }

  /** A type field that holds the bytes of a valid tag is four letters. */
  lemma TypeFieldOfTag(value: seq<bv8>, t: ChunkType)
    requires |value| >= DataLengthBytes + DataTypeBytes && t.Valid() && value[4..8] == t.Bytes()
    ensures TypeFieldIsLetters(value)
  {
    forall i | 4 <= i < 8
      ensures IsAsciiLetter(value[i])
    {
      assert value[i] == t.Bytes()[i - 4];
    }
  }

  /** The fields of such a frame, with anything appended after it. */
  lemma FrameWithFields(c: Chunk, crc: U32, suffix: seq<bv8>)
    requires c.Valid() && |c.data| < U32Range
    ensures var value := FrameWith(c, crc) + suffix;
      && |value| >= MetaDataBytes + |c.data|
      && value[..4] == ToBeBytes(|c.data|)
      && value[4..8] == c.chunkType.Bytes()
      && value[8..8 + |c.data|] == c.data
      && value[8 + |c.data|..12 + |c.data|] == ToBeBytes(crc)
  {
    var bytes, n := FrameWith(c, crc), |c.data|;
    Concat4(ToBeBytes(c.Length()), c.chunkType.Bytes(), c.data, ToBeBytes(crc));
    SliceOfPrefix(bytes, suffix, 0, 4);
    SliceOfPrefix(bytes, suffix, 4, 8);
    SliceOfPrefix(bytes, suffix, 8, 8 + n);
    SliceOfPrefix(bytes, suffix, 8 + n, 12 + n);
    assert bytes[8 + n..12 + n] == bytes[8 + n..];
  }

  /**
    Parsing the frame of a chunk gives back the chunk when the CRC field
    holds its CRC, and reports both values when it holds another one,
    whatever follows the frame.
   */
  lemma ParseFrameWith(c: Chunk, crc: U32, suffix: seq<bv8>)
    requires c.Valid() && |c.data| < U32Range
    ensures TryFrom(FrameWith(c, crc) + suffix)
      == if crc == c.Crc() then Parsed(c) else Failed(CrcNotMatching(crc, c.Crc()))
  {
    var value := FrameWith(c, crc) + suffix;
    FrameWithFields(c, crc, suffix);
    ToFromBeBytes(value[..4]);
    assert DeclaredLength(value) == |c.data|;
    TypeFieldOfTag(value, c.chunkType);
    TryFromOwnBytes(c.chunkType);
    assert FramedChunk(value) == c;
    assert StoredCrc(value) == crc;
    TryFromMatchesSpec(value);
  }

  /**
    Serializing then parsing gives back the chunk, whatever follows it:
    the round trip of `as_bytes` and `try_from`. It holds for every valid
    tag, including one whose reserved bit is set.
   */
  lemma ParseAsBytes(c: Chunk, suffix: seq<bv8>)
    requires c.Valid() && |c.data| < U32Range
    ensures TryFrom(c.AsBytes() + suffix) == Parsed(c)
  {
    ParseFrameWith(c, c.Crc(), suffix);
  }

  /** A frame whose CRC field was altered is refused, with both CRC values reported. */
  lemma CorruptedCrcRejected(c: Chunk, crc: U32)
    requires c.Valid() && |c.data| < U32Range && crc != c.Crc()
    ensures TryFrom(FrameWith(c, crc)) == Failed(CrcNotMatching(crc, c.Crc()))
  {
    ParseFrameWith(c, crc, []);
    assert FrameWith(c, crc) + [] == FrameWith(c, crc);
  }

  /**
    A frame in which one data byte was altered is refused: the CRC stored
    for the original data differs from the one computed over the altered
    data.
   */
  lemma CorruptedDataRejected(c: Chunk, i: nat, b: bv8)
    requires c.Valid() && |c.data| < U32Range && i < |c.data| && b != c.data[i]
    ensures var altered := Chunk(c.chunkType, c.data[i := b]);
      && altered.Crc() != c.Crc()
      && TryFrom(FrameWith(altered, c.Crc())) == Failed(CrcNotMatching(c.Crc(), altered.Crc()))
  {
    var altered := Chunk(c.chunkType, c.data[i := b]);
    var s1, s2 := c.chunkType.Bytes() + c.data, c.chunkType.Bytes() + altered.data;
    assert s2 == s1[4 + i := b];
    Crc32.SingleByteChangeDetected(s1, s2, 4 + i);
    CorruptedCrcRejected(altered, c.Crc());
  }

  /** The two sequences have the same length and differ at exactly one index. */
  predicate DifferInOneByte(a: seq<bv8>, b: seq<bv8>) {
    && |a| == |b|
    && exists i :: 0 <= i < |a| && a[i] != b[i] && forall j :: 0 <= j < |a| && j != i ==> a[j] == b[j]
  }

  /**
    `crc()` covers the type bytes and the data and nothing else: chunks
    that agree on both have the same CRC, and chunks of the same type whose
    data differ in one byte have different CRCs.
   */
  lemma CrcCoversTypeAndData(c1: Chunk, c2: Chunk)
    requires c1.Valid() && c2.Valid()
    ensures c1.chunkType.Bytes() == c2.chunkType.Bytes() && c1.data == c2.data ==> c1.Crc() == c2.Crc()
    ensures c1.chunkType.Bytes() == c2.chunkType.Bytes() && DifferInOneByte(c1.data, c2.data) ==>
      c1.Crc() != c2.Crc()
  {
    if c1.chunkType.Bytes() == c2.chunkType.Bytes() && DifferInOneByte(c1.data, c2.data) {
      var i :| 0 <= i < |c1.data| && c1.data[i] != c2.data[i]
        && forall j :: 0 <= j < |c1.data| && j != i ==> c1.data[j] == c2.data[j];
      var s1, s2 := c1.chunkType.Bytes() + c1.data, c2.chunkType.Bytes() + c2.data;
      assert s1[4 + i] == c1.data[i] && s2[4 + i] == c2.data[i];
      forall j | 0 <= j < |s1| && j != 4 + i
        ensures s1[j] == s2[j]
      {
        if j >= 4 {
          assert s1[j] == c1.data[j - 4] && s2[j] == c2.data[j - 4];
        }
      }
      Crc32.SingleByteChangeDetected(s1, s2, 4 + i);
    }
  }

  /** The four fields of a frame, put back together, are the frame. */
  lemma JoinFields(s: seq<bv8>, n: nat)
    requires MetaDataBytes + n <= |s|
    ensures s[..4] + s[4..8] + s[8..8 + n] + s[8 + n..12 + n] == s[..12 + n]
  {
  }

  /** Each field of a complete frame, as the chunk it describes would write it. */
  lemma FramedFields(value: seq<bv8>)
    requires IsComplete(value) && TypeFieldIsLetters(value)
    ensures var c, n := FramedChunk(value), DeclaredLength(value);
      && ToBeBytes(c.Length()) == value[..4]
      && c.data == value[8..8 + n]
      && ToBeBytes(StoredCrc(value)) == value[8 + n..12 + n]
  {
    ToFromBeBytes(value[..4]);
    var n: nat := DeclaredLength(value);
    ToFromBeBytes(value[8 + n..12 + n]);
  }

  /**
    Parsing then serializing: a chunk that `try_from` returns serializes to
    exactly the bytes it was parsed from, up to the end of its CRC field.
   */
  lemma ParsedReserializes(value: seq<bv8>)
    requires TryFrom(value).Parsed?
    ensures var c := TryFrom(value).chunk;
      && |c.data| < U32Range
      && c.AsBytes() == value[..MetaDataBytes + |c.data|]
  {
    TryFromParsed(value);
    FramedReserializes(value);
  }

  lemma FramedReserializes(value: seq<bv8>)
    requires IsComplete(value) && TypeFieldIsLetters(value)
    requires StoredCrc(value) == FramedChunk(value).Crc()
    ensures FramedChunk(value).AsBytes() == value[..MetaDataBytes + DeclaredLength(value)]
  {
    var c, n: nat := FramedChunk(value), DeclaredLength(value);
    FramedFields(value);
    assert c.AsBytes() == value[..4] + value[4..8] + value[8..8 + n] + value[8 + n..12 + n];
    JoinFields(value, n);
  }

  /** Appending bytes leaves the length and type fields of a long enough input alone. */
  lemma HeadOfExtended(value: seq<bv8>, suffix: seq<bv8>)
    requires |value| >= MetaDataBytes
    ensures DeclaredLength(value + suffix) == DeclaredLength(value)
    ensures TypeFieldIsLetters(value + suffix) == TypeFieldIsLetters(value)
    ensures (value + suffix)[4..8] == value[4..8]
  {
    SliceOfPrefix(value, suffix, 0, 4);
    SliceOfPrefix(value, suffix, 4, 8);
    assert forall i :: 4 <= i < 8 ==> (value + suffix)[i] == value[i];
  }

  /** Appending bytes to a complete frame leaves every field alone. */
  lemma FrameOfExtended(value: seq<bv8>, suffix: seq<bv8>)
    requires IsComplete(value) && TypeFieldIsLetters(value)
    ensures IsComplete(value + suffix) && TypeFieldIsLetters(value + suffix)
    ensures FramedChunk(value + suffix) == FramedChunk(value)
    ensures StoredCrc(value + suffix) == StoredCrc(value)
  {
    HeadOfExtended(value, suffix);
    var n: nat := DeclaredLength(value);
    SliceOfPrefix(value, suffix, 8, 8 + n);
    SliceOfPrefix(value, suffix, 8 + n, 12 + n);
  }

  /**
    Bytes after the end of the CRC field are never looked at: unless the
    input was too short or `try_from` panicked on it, appending anything
    leaves the outcome unchanged.
   */
  lemma TrailingBytesIgnored(value: seq<bv8>, suffix: seq<bv8>)
    requires |value| >= MetaDataBytes && !TryFrom(value).Panicked?
    ensures TryFrom(value + suffix) == TryFrom(value)
  {
    TryFromMatchesSpec(value);
    TryFromMatchesSpec(value + suffix);
    HeadOfExtended(value, suffix);
    if TypeFieldIsLetters(value) {
      FrameOfExtended(value, suffix);
    }
  }
}
