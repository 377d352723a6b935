/**
  The CRC-32 of section 5.5 of the PNG Specification (ISO 3309 / ITU-T V.42):
  polynomial x^32 + x^26 + ... + 1, processed least significant bit first
  (the reflected constant 0xEDB88320), register preset to all ones and
  complemented at the end. `crc32fast::hash` computes this value; its
  table-driven and SIMD internals are replaced by the bitwise definition.
 */
module Crc32 {

  import opened BigEndian

  /** The generator polynomial in reflected bit order. */
  const Polynomial: bv32 := 0xEDB8_8320

  /** One bit of polynomial division on the shift register. */
  function BitStep(c: bv32): bv32 {
    if c & 1 == 1 then Polynomial ^ (c >> 1) else c >> 1
  }

  /** Eight bit steps in a row: one byte's worth of division. */
  function Shift8(c: bv32): bv32 {
    BitStep(BitStep(BitStep(BitStep(BitStep(BitStep(BitStep(BitStep(c))))))))
  }

  /** Absorbs one message byte into the register: xor it in, then eight bit steps. */
  function ByteStep(c: bv32, b: bv8): bv32 {
    Shift8(c ^ b as bv32)
  }

  /** Absorbs a sequence of bytes, first byte first. */
  function Update(c: bv32, bytes: seq<bv8>): bv32
    decreases |bytes|
  {
    if bytes == [] then c else Update(ByteStep(c, bytes[0]), bytes[1..])
  }

  /** The CRC of a whole message, as a `u32`: preset to all ones, complement at the end. */
  function Checksum(bytes: seq<bv8>): U32 {
    RegisterValue(Update(0xFFFF_FFFF, bytes) ^ 0xFFFF_FFFF)
  }

  /** Absorbing a concatenation is absorbing its parts in turn. */
  lemma {:induction false} UpdateAppend(c: bv32, a: seq<bv8>, b: seq<bv8>)
    ensures Update(c, a + b) == Update(Update(c, a), b)
    decreases |a|
  {
    if a == [] {
      assert a + b == b;
    } else {
      assert (a + b)[1..] == a[1..] + b;
      UpdateAppend(ByteStep(c, a[0]), a[1..], b);
    }
  }

  /** A bit step loses no information: the polynomial's top bit records the bit shifted out. */
  lemma BitStepInjective(x: bv32, y: bv32)
    ensures BitStep(x) == BitStep(y) ==> x == y
  {
  }

  /** Hence neither do eight of them. */
  lemma Shift8Injective(x: bv32, y: bv32)
    ensures Shift8(x) == Shift8(y) ==> x == y
  {
    var x1, y1 := BitStep(x), BitStep(y);
    var x2, y2 := BitStep(x1), BitStep(y1);
    var x3, y3 := BitStep(x2), BitStep(y2);
    var x4, y4 := BitStep(x3), BitStep(y3);
    var x5, y5 := BitStep(x4), BitStep(y4);
    var x6, y6 := BitStep(x5), BitStep(y5);
    var x7, y7 := BitStep(x6), BitStep(y6);
    BitStepInjective(x7, y7); BitStepInjective(x6, y6); BitStepInjective(x5, y5); BitStepInjective(x4, y4);
    BitStepInjective(x3, y3); BitStepInjective(x2, y2); BitStepInjective(x1, y1); BitStepInjective(x, y);
  }

  lemma XorCancels(c1: bv32, c2: bv32, b: bv32)
    ensures c1 ^ b == c2 ^ b ==> c1 == c2
    ensures b ^ c1 == b ^ c2 ==> c1 == c2
  {
  }

  /** Two registers that differ stay different after absorbing the same byte. */
  lemma ByteStepInjectiveInRegister(c1: bv32, c2: bv32, b: bv8)
    ensures ByteStep(c1, b) == ByteStep(c2, b) ==> c1 == c2
  {
    Shift8Injective(c1 ^ b as bv32, c2 ^ b as bv32);
    XorCancels(c1, c2, b as bv32);
  }

  lemma ByteWidening(x: bv8, y: bv8)
    ensures x as bv32 == y as bv32 ==> x == y
  {
  }

  /** The same register absorbing two different bytes ends in different states. */
  lemma ByteStepInjectiveInByte(c: bv32, x: bv8, y: bv8)
    ensures ByteStep(c, x) == ByteStep(c, y) ==> x == y
  {
    Shift8Injective(c ^ x as bv32, c ^ y as bv32);
    XorCancels(x as bv32, y as bv32, c);
    ByteWidening(x, y);
  }

  /** Two registers that differ stay different after absorbing the same bytes. */
  lemma {:induction false} UpdateInjective(c1: bv32, c2: bv32, bytes: seq<bv8>)
    requires c1 != c2
    ensures Update(c1, bytes) != Update(c2, bytes)
    decreases |bytes|
  {
    if bytes != [] {
      ByteStepInjectiveInRegister(c1, c2, bytes[0]);
      UpdateInjective(ByteStep(c1, bytes[0]), ByteStep(c2, bytes[0]), bytes[1..]);
    }
  }

  /** Two sequences that differ at most at index `i` share what lies on either side of it. */
  lemma SplitAround(s1: seq<bv8>, s2: seq<bv8>, i: nat)
    requires |s1| == |s2| && i < |s1|
    requires forall j :: 0 <= j < |s1| && j != i ==> s1[j] == s2[j]
    ensures s1 == s1[..i] + [s1[i]] + s1[i + 1..]
    ensures s2 == s1[..i] + [s2[i]] + s1[i + 1..]
  {
    assert s2[..i] == s1[..i];
    assert s2[i + 1..] == s1[i + 1..];
    assert s2 == s2[..i] + [s2[i]] + s2[i + 1..];
  }

  lemma UpdateAround(c: bv32, prefix: seq<bv8>, b: bv8, suffix: seq<bv8>)
    ensures Update(c, prefix + [b] + suffix) == Update(ByteStep(Update(c, prefix), b), suffix)
  {
    assert prefix + [b] + suffix == prefix + ([b] + suffix);
    UpdateAppend(c, prefix, [b] + suffix);
    assert ([b] + suffix)[1..] == suffix;
  }

  /**
    Any corruption confined to a single byte changes the checksum: CRC-32
    detects every error burst of at most 32 bits, a single byte included.
   */
  lemma SingleByteChangeDetected(s1: seq<bv8>, s2: seq<bv8>, i: nat)
    requires |s1| == |s2| && i < |s1|
    requires s1[i] != s2[i]
    requires forall j :: 0 <= j < |s1| && j != i ==> s1[j] == s2[j]
    ensures Checksum(s1) != Checksum(s2)
  {
    var prefix, suffix := s1[..i], s1[i + 1..];
    SplitAround(s1, s2, i);
    UpdateAround(0xFFFF_FFFF, prefix, s1[i], suffix);
    UpdateAround(0xFFFF_FFFF, prefix, s2[i], suffix);
    var c := Update(0xFFFF_FFFF, prefix);
    ByteStepInjectiveInByte(c, s1[i], s2[i]);
    UpdateInjective(ByteStep(c, s1[i]), ByteStep(c, s2[i]), suffix);
    ChecksumInjective(s1, s2);
  }

  /** The final complement and the reading of the register as a `u32` lose nothing. */
  lemma ChecksumInjective(s1: seq<bv8>, s2: seq<bv8>)
    ensures Update(0xFFFF_FFFF, s1) != Update(0xFFFF_FFFF, s2) ==> Checksum(s1) != Checksum(s2)
  {
    var r1, r2 := Update(0xFFFF_FFFF, s1), Update(0xFFFF_FFFF, s2);
    if r1 != r2 {
      ChecksumOf(s1, r1);
      ChecksumOf(s2, r2);
      FinishInjective(r1, r2);
    }
  }

  lemma ChecksumOf(s: seq<bv8>, r: bv32)
    requires r == Update(0xFFFF_FFFF, s)
    ensures Checksum(s) == RegisterValue(r ^ 0xFFFF_FFFF)
  {
  }

  lemma FinishInjective(r1: bv32, r2: bv32)
    requires r1 != r2
    ensures RegisterValue(r1 ^ 0xFFFF_FFFF) != RegisterValue(r2 ^ 0xFFFF_FFFF)
  {
    XorCancels(r1, r2, 0xFFFF_FFFF);
    RegisterValueInjective(r1 ^ 0xFFFF_FFFF, r2 ^ 0xFFFF_FFFF);
  }

  /** The check value of this CRC: the checksum of the ASCII digits "123456789" is 0xCBF43926. */
  lemma CheckValue()
    ensures Checksum([0x31, 0x32, 0x33, 0x34, 0x35, 0x36, 0x37, 0x38, 0x39]) == 0xCBF4_3926
  {
  }
}
