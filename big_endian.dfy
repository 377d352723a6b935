/**
  Fixed-width byte views used by the chunk frame: `[u8; 4]` arrays, `u32`
  values, and the big-endian ("network order") encoding between them that
  Rust's `u32::to_be_bytes` and `u32::from_be_bytes` perform.
 */
module BigEndian {

  import opened ByteValues

  /** A Rust `[u8; 4]`. */
  type Bytes4 = s: seq<bv8> | |s| == 4 witness [0, 0, 0, 0]

  /** One more than the largest `u32`: the modulus of an `as u32` cast. */
  const U32Range: nat := 0x1_0000_0000

  /** A Rust `u32`, by its value. */
  type U32 = n: nat | n < 0x1_0000_0000

  /**
    `u32::from_be_bytes(s)`: most significant byte first, so the bytes are
    the value's base-256 digits from the top down.
   */
  function FromBeBytes(s: Bytes4): (r: U32)
    ensures r / 0x100 / 0x100 / 0x100 == s[0] as int
    ensures r / 0x100 / 0x100 % 0x100 == s[1] as int
    ensures r / 0x100 % 0x100 == s[2] as int
    ensures r % 0x100 == s[3] as int
  {
    var v := ((s[0] as int * 0x100 + s[1] as int) * 0x100 + s[2] as int) * 0x100 + s[3] as int;
    DigitsOf(v, s[0] as int, s[1] as int, s[2] as int, s[3] as int);
    v
  }

  /** `n.to_be_bytes()`, the inverse of `FromBeBytes`. */
  function ToBeBytes(n: U32): (r: Bytes4)
    ensures FromBeBytes(r) == n
  {
    DivModByte(n);
    DivModByte(n / 0x100);
    DivModByte(n / 0x100 / 0x100);
    [ByteOf(n / 0x100 / 0x100 / 0x100), ByteOf(n / 0x100 / 0x100 % 0x100),
     ByteOf(n / 0x100 % 0x100), ByteOf(n % 0x100)]
  }

  /** A 32-bit register read as the `u32` it holds. */
  function RegisterValue(x: bv32): U32 {
    FromBeBytes(RegisterBytes(x))
  }

  /** The four bytes of a 32-bit register, most significant first. */
  function RegisterBytes(x: bv32): Bytes4 {
    [(x >> 24) as bv8, ((x >> 16) & 0xFF) as bv8, ((x >> 8) & 0xFF) as bv8, (x & 0xFF) as bv8]
  }

  lemma DivModByte(n: nat)
    ensures n == n / 0x100 * 0x100 + n % 0x100 && n % 0x100 < 0x100
  {
  }

  lemma Peel(q: nat, r: nat)
    requires r < 0x100
    ensures (q * 0x100 + r) / 0x100 == q && (q * 0x100 + r) % 0x100 == r
  {
  }

  lemma DigitsOf(v: nat, a: nat, b: nat, c: nat, d: nat)
    requires a < 0x100 && b < 0x100 && c < 0x100 && d < 0x100
    requires v == ((a * 0x100 + b) * 0x100 + c) * 0x100 + d
    ensures v / 0x100 / 0x100 / 0x100 == a
    ensures v / 0x100 / 0x100 % 0x100 == b
    ensures v / 0x100 % 0x100 == c
    ensures v % 0x100 == d
  {
    var q2 := a * 0x100 + b;
    var q1 := q2 * 0x100 + c;
    Peel(q1, d);
    Peel(q2, c);
    Peel(a, b);
  }

  /** Decoding then encoding gives back the same four bytes. */
  lemma ToFromBeBytes(s: Bytes4)
    ensures ToBeBytes(FromBeBytes(s)) == s
  {
    ByteOfValue(s[0]); ByteOfValue(s[1]); ByteOfValue(s[2]); ByteOfValue(s[3]);
    var r := ToBeBytes(FromBeBytes(s));
    assert r[0] == s[0] && r[1] == s[1] && r[2] == s[2] && r[3] == s[3];
  }

  /** Distinct four-byte arrays encode distinct values. */
  lemma FromBeBytesInjective(s: Bytes4, t: Bytes4)
    ensures FromBeBytes(s) == FromBeBytes(t) ==> s == t
  {
    ToFromBeBytes(s);
    ToFromBeBytes(t);
  }

  lemma RegisterBytesInjective(x: bv32, y: bv32)
    ensures RegisterBytes(x) == RegisterBytes(y) ==> x == y
  {
    var s, t := RegisterBytes(x), RegisterBytes(y);
    if s == t {
      assert s[0] == t[0] && s[1] == t[1] && s[2] == t[2] && s[3] == t[3];
    }
  }

  /** Distinct registers hold distinct values. */
  lemma RegisterValueInjective(x: bv32, y: bv32)
    ensures RegisterValue(x) == RegisterValue(y) ==> x == y
  {
    FromBeBytesInjective(RegisterBytes(x), RegisterBytes(y));
    RegisterBytesInjective(x, y);
  }
}
