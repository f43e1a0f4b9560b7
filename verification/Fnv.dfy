/** Lock keys as 64-bit FNV-1a hashes, read back as signed integers. */
module Fnv {

  const PRIME: nat := 0x100000001B3
  const OFFSET: nat := 0xCBF29CE484222325
  const MODULUS: nat := 0x1_0000_0000_0000_0000 // 2^64

  /** Multiplicative inverse of the prime modulo 2^64. */
  const INVERSE: nat := 0xCE965057AFF6957B

  type Byte = b: int | 0 <= b < 256

  // ---- Exclusive or, bit by bit -----------------------------------------------------

  function Xor(a: nat, b: nat): nat
    decreases a + b
  {
    if a == 0 && b == 0 then 0 else (a % 2 + b % 2) % 2 + 2 * Xor(a / 2, b / 2)
  }

  lemma {:induction false} XorZero(a: nat)
    ensures Xor(a, 0) == a
  {
    if a == 0 {
    } else {
      XorZero(a / 2);
    }
  }

  lemma XorBits(a: nat, b: nat)
    ensures Xor(a, b) % 2 == (a % 2 + b % 2) % 2 && Xor(a, b) / 2 == Xor(a / 2, b / 2)
  {
  }

  lemma {:induction false} XorUndoes(a: nat, b: nat)
    ensures Xor(Xor(a, b), b) == a
    decreases a + b
  {
    if a == 0 && b == 0 {
    } else {
      XorUndoes(a / 2, b / 2);
      XorBits(a, b);
      XorBits(Xor(a, b), b);
      Parity(a % 2, b % 2);
      SameBits(Xor(Xor(a, b), b), a);
    }
  }

  lemma Parity(a: nat, b: nat)
    requires a < 2 && b < 2
    ensures ((a + b) % 2 + b) % 2 == a
  {
  }

  lemma SameBits(x: nat, y: nat)
    requires x % 2 == y % 2 && x / 2 == y / 2
    ensures x == y
  {
  }

  lemma {:induction false} XorCommutes(a: nat, b: nat)
    ensures Xor(a, b) == Xor(b, a)
    decreases a + b
  {
    if a != 0 || b != 0 { XorCommutes(a / 2, b / 2); }
  }

  lemma {:induction false} XorBounded(a: nat, b: nat, bits: nat)
    requires a < Pow2(bits) && b < Pow2(bits)
    ensures Xor(a, b) < Pow2(bits)
    decreases bits
  {
    if bits > 0 && (a != 0 || b != 0) { XorBounded(a / 2, b / 2, bits - 1); }
  }

  function Pow2(n: nat): nat { if n == 0 then 1 else 2 * Pow2(n - 1) }

  lemma Pow2Of64()
    ensures Pow2(64) == MODULUS
  {
    assert Pow2(8) == 0x100;
    assert Pow2(16) == 0x1_0000;
    assert Pow2(24) == 0x100_0000;
    assert Pow2(32) == 0x1_0000_0000;
    assert Pow2(40) == 0x100_0000_0000;
    assert Pow2(48) == 0x1_0000_0000_0000;
    assert Pow2(56) == 0x100_0000_0000_0000;
  }

  // ---- The hash --------------------------------------------------------------------

  function Step(h: nat, b: Byte): nat { Xor(h, b) * PRIME % MODULUS }

  function HashFrom(h: nat, bytes: seq<Byte>): nat {
    if bytes == [] then h else Step(HashFrom(h, bytes[..|bytes| - 1]), bytes[|bytes| - 1])
  }

  function Hash(bytes: seq<Byte>): nat { HashFrom(OFFSET, bytes) }

  /** Two's complement reading of an unsigned 64-bit value. */
  function Signed(h: nat): int {
    if h < MODULUS / 2 then h else h - MODULUS
  }

  method KeyToBigint(bytes: seq<Byte>) returns (key: int)
    ensures key == Signed(Hash(bytes))
    ensures -0x8000_0000_0000_0000 <= key < 0x8000_0000_0000_0000
    ensures key % MODULUS == Hash(bytes) % MODULUS
  {
    var h := OFFSET;
    for i := 0 to |bytes|
      invariant h == HashFrom(OFFSET, bytes[..i]) && h < MODULUS
    {
      h := Xor(h, bytes[i]);
      h := h * PRIME % MODULUS;
      assert bytes[..i + 1][..i] == bytes[..i];
    }
    assert bytes[..|bytes|] == bytes;
    key := if h < MODULUS / 2 then h else h - MODULUS;
  }

  // ---- No collision within one byte ----------------------------------------------------

  lemma {:induction false} ModShift(x: nat, k: nat)
    ensures (x + k * MODULUS) % MODULUS == x % MODULUS
    decreases k
  {
    if k == 0 {
    } else {
      ModShift(x, k - 1);
    }
  }

  lemma MulMod(a: nat, b: nat)
    ensures (a % MODULUS) * b % MODULUS == a * b % MODULUS
  {
    var q := a / MODULUS;
    assert a * b == (a % MODULUS) * b + (q * b) * MODULUS by {
      assert a == q * MODULUS + a % MODULUS;
      assert (q * MODULUS + a % MODULUS) * b == (q * MODULUS) * b + (a % MODULUS) * b;
      assert (q * MODULUS) * b == (q * b) * MODULUS;
    }
    ModShift((a % MODULUS) * b, q * b);
  }

  /** Multiplying by the prime modulo 2^64 loses nothing. */
  lemma PrimeIsInvertible(x: nat)
    requires x < MODULUS
    ensures (x * PRIME % MODULUS) * INVERSE % MODULUS == x
  {
    MulMod(x * PRIME, INVERSE);
    var k := PRIME * INVERSE / MODULUS;
    assert PRIME * INVERSE == 1 + k * MODULUS;
    assert x * PRIME * INVERSE == x + (x * k) * MODULUS;
    ModShift(x, x * k);
  }

  lemma StepBounded(h: nat, b: Byte)
    ensures Step(h, b) < MODULUS
  {
  }

  /** One step is injective in the state and in the byte. */
  lemma StepInjective(g: nat, h: nat, a: Byte, b: Byte)
    requires g < MODULUS && h < MODULUS && Step(g, a) == Step(h, b)
    ensures Xor(g, a) == Xor(h, b)
    ensures a == b ==> g == h
    ensures g == h ==> a == b
  {
    Pow2Of64();
    XorBounded(g, a, 64);
    XorBounded(h, b, 64);
    PrimeIsInvertible(Xor(g, a));
    PrimeIsInvertible(Xor(h, b));
    XorUndoes(g, a);
    XorUndoes(h, b);
    XorCommutes(g, a);
    XorCommutes(h, b);
    XorUndoes(a, g);
    XorUndoes(b, h);
  }

  lemma {:induction false} HashBounded(h: nat, bytes: seq<Byte>)
    requires h < MODULUS
    ensures HashFrom(h, bytes) < MODULUS
  {
    if bytes == [] {
    } else {
      StepBounded(HashFrom(h, bytes[..|bytes| - 1]), bytes[|bytes| - 1]);
    }
  }

  /** Different states stay different over a common suffix. */
  lemma {:induction false} SuffixInjective(g: nat, h: nat, suffix: seq<Byte>)
    requires g < MODULUS && h < MODULUS && HashFrom(g, suffix) == HashFrom(h, suffix)
    ensures g == h
  {
    if suffix == [] {
    } else {
      var n := |suffix| - 1;
      HashBounded(g, suffix[..n]);
      HashBounded(h, suffix[..n]);
      StepInjective(HashFrom(g, suffix[..n]), HashFrom(h, suffix[..n]), suffix[n], suffix[n]);
      SuffixInjective(g, h, suffix[..n]);
    }
  }

  lemma {:induction false} HashAppend(h: nat, a: seq<Byte>, b: seq<Byte>)
    ensures HashFrom(h, a + b) == HashFrom(HashFrom(h, a), b)
  {
    if b == [] {
      assert a + b == a;
    } else {
      var n := |b| - 1;
      assert (a + b)[..|a + b| - 1] == a + b[..n];
      HashAppend(h, a, b[..n]);
    }
  }

  /** The signed reading is the one number of its range congruent to the hash. */
  lemma SignedIsCongruent(h: nat, key: int)
    requires h < MODULUS
    ensures Signed(h) == key <==> -0x8000_0000_0000_0000 <= key < 0x8000_0000_0000_0000 && key % MODULUS == h
  {
  }

  lemma SignedInjective(g: nat, h: nat)
    requires g < MODULUS && h < MODULUS && Signed(g) == Signed(h)
    ensures g == h
  {
  }

  /** Two keys of one length that differ in exactly one byte never share a lock number. */
  lemma OneByteNeverCollides(prefix: seq<Byte>, a: Byte, b: Byte, suffix: seq<Byte>)
    requires a != b
    ensures Signed(Hash(prefix + [a] + suffix)) != Signed(Hash(prefix + [b] + suffix))
  {
    var h := Hash(prefix);
    HashBounded(OFFSET, prefix);
    assert [a][..0] == [] && [b][..0] == [];
    assert HashFrom(h, [a]) == Step(HashFrom(h, []), a);
    assert HashFrom(h, [b]) == Step(HashFrom(h, []), b);
    HashAppend(OFFSET, prefix, [a]);
    HashAppend(OFFSET, prefix, [b]);
    HashAppend(OFFSET, prefix + [a], suffix);
    HashAppend(OFFSET, prefix + [b], suffix);
    StepBounded(h, a);
    StepBounded(h, b);
    HashBounded(Step(h, a), suffix);
    HashBounded(Step(h, b), suffix);
    if Signed(Hash(prefix + [a] + suffix)) == Signed(Hash(prefix + [b] + suffix)) {
      SignedInjective(Hash(prefix + [a] + suffix), Hash(prefix + [b] + suffix));
      SuffixInjective(Step(h, a), Step(h, b), suffix);
      StepInjective(h, h, a, b);
    }
  }

  /** Published values of the hash: of the empty key, and of the key `a`. */
  lemma KnownHashes(empty: seq<Byte>, a: seq<Byte>)
    requires empty == [] && |a| == 1 && a[0] == 97
    ensures Hash(empty) == 0xCBF29CE484222325
    ensures Hash(a) == 0xAF63DC4C8601EC8C
    ensures Signed(Hash(a)) == 0xAF63DC4C8601EC8C - 0x1_0000_0000_0000_0000
  {
    OneByte(OFFSET, a);
    OffsetXorA();
    KnownProduct(Xor(OFFSET, a[0]));
  }

  lemma OneByte(h: nat, key: seq<Byte>)
    requires |key| == 1
    ensures HashFrom(h, key) == Xor(h, key[0]) * PRIME % MODULUS
  {
    assert key[..|key| - 1] == [];
    assert HashFrom(h, key[..|key| - 1]) == h;
  }

  lemma KnownProduct(x: nat)
    requires x == 0xCBF29CE484222344
    ensures x * PRIME % MODULUS == 0xAF63DC4C8601EC8C
  {
  }

  lemma XorUp(a: nat, b: nat, x: nat)
    requires Xor(a / 2, b / 2) == x
    ensures Xor(a, b) == 2 * x + (a % 2 + b % 2) % 2
  {
    XorBits(a, b);
  }

  lemma OffsetXorA()
    ensures Xor(0xCBF29CE484222325, 97) == 0xCBF29CE484222344
  {
    XorZero(0x197E539C9084446);
    XorUp(0x32FCA739210888C, 1, 0x197E539C9084446);
    XorUp(0x65F94E724211119, 3, 0x32FCA739210888D);
    XorUp(0xCBF29CE48422232, 6, 0x65F94E72421111A);
    XorUp(0x197E539C90844464, 12, 0xCBF29CE48422234);
    XorUp(0x32FCA739210888C9, 24, 0x197E539C90844468);
    XorUp(0x65F94E7242111192, 48, 0x32FCA739210888D1);
    XorUp(0xCBF29CE484222325, 97, 0x65F94E72421111A2);
  }
}
