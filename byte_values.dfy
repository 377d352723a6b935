/** Bytes (`u8`) as eight-bit vectors, and their numeric values. */
module ByteValues {

  /** The byte whose value is `m`. */
  function ByteOf(m: nat): (b: bv8)
    requires m < 0x100
    ensures b as int == m
  {
    if m == 0 then 0 else ByteOf(m - 1) + 1
  }

  lemma ByteValueInjective(x: bv8, y: bv8)
    ensures x as int == y as int ==> x == y
  {
  }

  /** `ByteOf` inverts reading a byte as a number. */
  lemma ByteOfValue(b: bv8)
    ensures ByteOf(b as int) == b
  {
    ByteValueInjective(ByteOf(b as int), b);
  }
}
