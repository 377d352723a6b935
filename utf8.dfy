/**
  The UTF-8 encoding of a string (RFC 3629, section 3): the bytes that Rust's
  `str::as_bytes` exposes and whose count `str::len` reports.
 */
module Utf8 {

  import ByteValues

  /** The one- to four-byte encoding of a single Unicode scalar value. */
  function EncodeChar(c: char): (r: seq<bv8>)
    ensures 1 <= |r| <= 4
    ensures |r| == 1 <==> c as int < 0x80
    ensures |r| == 1 ==> r[0] as int == c as int
    ensures |r| > 1 ==> forall k :: 0 <= k < |r| ==> r[k] >= 0x80
  {
    if c as int < 0x80 then [AsciiByte(c)] else EncodeNonAscii(c)
  }

  /** A character below U+0080 is its own code as a single byte. */
  function AsciiByte(c: char): (b: bv8)
    requires c as int < 0x80
    ensures b as int == c as int
  {
    ByteValues.ByteOf(c as int)
  }

  /**
    Two, three or four bytes: a lead byte carrying the length and the top
    bits of the code point, then continuation bytes of six bits each.
   */
  function EncodeNonAscii(c: char): (r: seq<bv8>)
    requires c as int >= 0x80
    ensures 2 <= |r| <= 4
    ensures forall k :: 0 <= k < |r| ==> r[k] >= 0x80
  {
    var n := c as bv32;
    if c as int < 0x800 then
      [(((n >> 6) & 0x1F) | 0xC0) as bv8, ((n & 0x3F) | 0x80) as bv8]
    else if c as int < 0x1_0000 then
      [(((n >> 12) & 0x0F) | 0xE0) as bv8, (((n >> 6) & 0x3F) | 0x80) as bv8, ((n & 0x3F) | 0x80) as bv8]
    else
      [(((n >> 18) & 0x07) | 0xF0) as bv8, (((n >> 12) & 0x3F) | 0x80) as bv8,
       (((n >> 6) & 0x3F) | 0x80) as bv8, ((n & 0x3F) | 0x80) as bv8]
  }

  /** Every character is ASCII (below U+0080). */
  predicate IsAscii(s: string) {
    forall i :: 0 <= i < |s| ==> s[i] as int < 0x80
  }

  /**
    The encoding of a whole string. It is never shorter than the string; an
    ASCII string is encoded byte for byte, and any other string contains a
    byte with its top bit set.
   */
  function Encode(s: string): (r: seq<bv8>)
    ensures |r| >= |s|
    ensures IsAscii(s) ==> |r| == |s| && forall i :: 0 <= i < |s| ==> r[i] as int == s[i] as int
    ensures !IsAscii(s) ==> HasHighByte(r)
    decreases |s|
  {
    if s == [] then []
    else
      var head, tail := EncodeChar(s[0]), Encode(s[1..]);
      assert !IsAscii(s) && IsAscii(s[1..]) ==> head[0] >= 0x80 && (head + tail)[0] == head[0];
      HighByteSurvivesPrefix(head, tail);
      head + tail
  }

  predicate HasHighByte(r: seq<bv8>) {
    exists k :: 0 <= k < |r| && r[k] >= 0x80
  }

  lemma HighByteSurvivesPrefix(head: seq<bv8>, tail: seq<bv8>)
    ensures HasHighByte(tail) ==> HasHighByte(head + tail)
  {
    if HasHighByte(tail) {
      var k :| 0 <= k < |tail| && tail[k] >= 0x80;
      assert (head + tail)[|head| + k] == tail[k];
    }
  }
}
