/** CRC-32C (Castagnoli), the digest of section 12.1 of RFC 3720, in the reflected
    convention, computed one message bit at a time; and the operator that combines the
    checksums of two adjacent byte ranges without reading their bytes. */
module Crc32c {

  type byte = bv8

  /** The reflected Castagnoli polynomial. */
  const Castagnoli: bv32 := 0x82F63B78

  /** Addition in GF(2)^32. Kept as a named function so that the proofs below can
      reason about sums of registers without unfolding them into bits. */
  function Xor(a: bv32, b: bv32): bv32 {
    a ^ b
  }

  /** The register shifted one place towards its low end. */
  function Half(c: bv32): bv32 {
    c >> 1
  }

  /** What a step folds in: the polynomial when the bit shifted out is set. */
  function Mask(c: bv32): bv32 {
    if c & 1 == 1 then Castagnoli else 0
  }

  /** One step of the shift register: shift right, folding in the polynomial when the
      bit shifted out is set. */
  function Step(c: bv32): bv32 {
    Xor(Half(c), Mask(c))
  }

  /** Feeds one message bit: it is added to the low end of the register, which then
      steps. */
  function Feed(c: bv32, bit: bool): bv32 {
    Step(if bit then Xor(c, 1) else c)
  }

  /** The raw register after feeding the bits `t` into `c`, with no pre- or
      post-conditioning. */
  function Register(c: bv32, t: seq<bool>): bv32
    decreases |t|
  {
    if |t| == 0 then c else Register(Feed(c, t[0]), t[1..])
  }

  /** The bits of a byte, least significant first (the reflected order). */
  function ByteBits(b: byte): (t: seq<bool>)
    ensures |t| == 8
  {
    [b & 1 != 0, b & 2 != 0, b & 4 != 0, b & 8 != 0,
     b & 16 != 0, b & 32 != 0, b & 64 != 0, b & 128 != 0]
  }

  /** The bits of a byte string, byte by byte. */
  function Bits(s: seq<byte>): (t: seq<bool>)
    ensures |t| == 8 * |s|
  {
    if |s| == 0 then [] else ByteBits(s[0]) + Bits(s[1..])
  }

  const Ones: bv32 := 0xFFFF_FFFF

  /** CRC-32C of a byte string: the register starts at all ones and the result is
      inverted. */
  function Crc(s: seq<byte>): (c: bv32)
    ensures |s| == 0 ==> c == 0
  {
    Xor(Register(Ones, Bits(s)), Ones)
  }

  function ZeroBits(n: nat): (z: seq<bool>)
    ensures |z| == n
  {
    if n == 0 then [] else [false] + ZeroBits(n - 1)
  }

  /** Combines the checksum `a` of a range A with the checksum `b` of the range B that
      immediately follows it, `n` being the length of B in bytes: `a` is shifted
      through `n` zero bytes and `b` is added. A non-positive length leaves `a`
      unchanged. */
  function Combine(a: bv32, b: bv32, n: int): (c: bv32)
    ensures n <= 0 ==> c == a
  {
    if n <= 0 then a else Xor(Register(a, ZeroBits(8 * n)), b)
  }

  // ---------------------------------------------------------------------------
  // Facts about single registers

  // The bit-level identities below are stated on the operators themselves; each is
  // decided by the solver's bit-vector reasoning alone.

  lemma RawXor(a: bv32, b: bv32, c: bv32)
    ensures (a ^ b) ^ c == a ^ (b ^ c)
    ensures (a ^ c) ^ c == a
  {
  }

  lemma RawComm(a: bv32, b: bv32)
    ensures a ^ b == b ^ a
  {
  }

  lemma RawLowBit(x: bv32, y: bv32)
    ensures (x ^ y) & 1 == 1 <==> ((x & 1 == 1) != (y & 1 == 1))
  {
  }

  lemma RawShift(x: bv32, y: bv32)
    ensures (x ^ y) >> 1 == (x >> 1) ^ (y >> 1)
  {
  }

  lemma XorAssoc(a: bv32, b: bv32, c: bv32)
    ensures Xor(Xor(a, b), c) == Xor(a, Xor(b, c))
  {
    RawXor(a, b, c);
  }

  lemma XorCancel(a: bv32, c: bv32)
    ensures Xor(Xor(a, c), c) == a
  {
    RawXor(a, 0, c);
  }

  lemma XorComm(a: bv32, b: bv32)
    ensures Xor(a, b) == Xor(b, a)
  {
    RawComm(a, b);
  }

  lemma XorShuffle(a: bv32, b: bv32, c: bv32, d: bv32)
    ensures Xor(Xor(a, b), Xor(c, d)) == Xor(Xor(a, c), Xor(b, d))
  {
    XorAssoc(a, b, Xor(c, d));
    XorAssoc(b, c, d);
    XorComm(b, c);
    XorAssoc(c, b, d);
    XorAssoc(a, c, Xor(b, d));
  }

  lemma HalfLinear(x: bv32, y: bv32)
    ensures Half(Xor(x, y)) == Xor(Half(x), Half(y))
  {
    RawShift(x, y);
  }

  lemma MaskLinear(x: bv32, y: bv32)
    ensures Mask(Xor(x, y)) == Xor(Mask(x), Mask(y))
  {
    RawLowBit(x, y);
    RawXor(0, Castagnoli, Castagnoli);
  }

  /** A step of the register is linear. */
  lemma StepLinear(x: bv32, y: bv32)
    ensures Step(Xor(x, y)) == Xor(Step(x), Step(y))
  {
    HalfLinear(x, y);
    MaskLinear(x, y);
    XorShuffle(Half(x), Half(y), Mask(x), Mask(y));
  }

  /** Feeding a bit is linear in the register and the bit together. */
  lemma FeedLinear(x: bv32, y: bv32, bit: bool)
    ensures Feed(Xor(x, y), bit) == Xor(Feed(x, false), Feed(y, bit))
  {
    if bit {
      XorAssoc(x, y, 1);
      StepLinear(x, Xor(y, 1));
    } else {
      StepLinear(x, y);
    }
  }

  // ---------------------------------------------------------------------------
  // Facts about whole messages

  /** Feeding `t` into the sum of two registers is feeding zeros into one and `t`
      into the other. */
  lemma {:induction false} RegisterLinear(x: bv32, y: bv32, t: seq<bool>)
    ensures Register(Xor(x, y), t) == Xor(Register(x, ZeroBits(|t|)), Register(y, t))
    decreases |t|
  {
    if |t| > 0 {
      FeedLinear(x, y, t[0]);
      RegisterLinear(Feed(x, false), Feed(y, t[0]), t[1..]);
      assert ZeroBits(|t|)[0] == false && ZeroBits(|t|)[1..] == ZeroBits(|t| - 1);
    }
  }

  /** Feeding a concatenation is feeding its parts one after the other. */
  lemma {:induction false} RegisterAppend(c: bv32, a: seq<bool>, b: seq<bool>)
    ensures Register(c, a + b) == Register(Register(c, a), b)
    decreases |a|
  {
    if |a| == 0 {
      assert a + b == b;
    } else {
      assert (a + b)[0] == a[0] && (a + b)[1..] == a[1..] + b;
      RegisterAppend(Feed(c, a[0]), a[1..], b);
    }
  }

  lemma {:induction false} BitsAppend(a: seq<byte>, b: seq<byte>)
    ensures Bits(a + b) == Bits(a) + Bits(b)
    decreases |a|
  {
    if |a| == 0 {
      assert a + b == b;
    } else {
      assert (a + b)[0] == a[0] && (a + b)[1..] == a[1..] + b;
      BitsAppend(a[1..], b);
    }
  }

  // ---------------------------------------------------------------------------
  // The law the combiner relies on

  /** The checksum of a concatenation is the combination of the parts' checksums, the
      earlier part being the left operand and the later part's length the shift. */
  lemma CombineConcat(a: seq<byte>, b: seq<byte>)
    ensures Combine(Crc(a), Crc(b), |b|) == Crc(a + b)
  {
    if |b| == 0 {
      assert a + b == a;
    } else {
      var ra, rb := Register(Ones, Bits(a)), Register(Ones, Bits(b));
      BitsAppend(a, b);
      RegisterAppend(Ones, Bits(a), Bits(b));
      XorCancel(ra, Ones);
      RegisterLinear(Crc(a), Ones, Bits(b));
      XorAssoc(Register(Crc(a), ZeroBits(8 * |b|)), rb, Ones);
    }
  }

  /** Combining is associative over three consecutive ranges, and both groupings give
      the checksum of the whole. */
  lemma CombineAssociative(a: seq<byte>, b: seq<byte>, c: seq<byte>)
    ensures Combine(Combine(Crc(a), Crc(b), |b|), Crc(c), |c|) == Crc(a + b + c)
    ensures Combine(Crc(a), Combine(Crc(b), Crc(c), |c|), |b| + |c|) == Crc(a + b + c)
  {
    CombineConcat(a, b);
    CombineConcat(a + b, c);
    CombineConcat(b, c);
    CombineConcat(a, b + c);
    assert a + (b + c) == a + b + c;
  }

  // ---------------------------------------------------------------------------
  // A known value

  // The register after each byte of "sample bytes", worked out from the definitions
  // four bytes at a time.

  lemma SampleFirstBytes()
    ensures Register(0xffffffff, ByteBits(115)) == 0xcf4a0b57
    ensures Register(0xcf4a0b57, ByteBits(97)) == 0x168de452
    ensures Register(0x168de452, ByteBits(109)) == 0x6ee6f871
    ensures Register(0x6ee6f871, ByteBits(112)) == 0xf20565fb
  {
  }

  lemma SampleMiddleBytes()
    ensures Register(0xf20565fb, ByteBits(108)) == 0x46909d99
    ensures Register(0x46909d99, ByteBits(101)) == 0xbe6b3038
    ensures Register(0xbe6b3038, ByteBits(32)) == 0x9a39f490
    ensures Register(0x9a39f490, ByteBits(98)) == 0x12cf2676
  {
  }

  lemma SampleLastBytes()
    ensures Register(0x12cf2676, ByteBits(121)) == 0x5e01f302
    ensures Register(0x5e01f302, ByteBits(116)) == 0x5767b216
    ensures Register(0x5767b216, ByteBits(101)) == 0x629fc04b
    ensures Register(0x629fc04b, ByteBits(115)) == 0xba588ebe
  {
  }

  /** Feeding four bytes, given the register after each of them. */
  lemma FeedFour(c: bv32, s: seq<byte>, c1: bv32, c2: bv32, c3: bv32, c4: bv32)
    requires |s| == 4
    requires Register(c, ByteBits(s[0])) == c1 && Register(c1, ByteBits(s[1])) == c2
    requires Register(c2, ByteBits(s[2])) == c3 && Register(c3, ByteBits(s[3])) == c4
    ensures Register(c, Bits(s)) == c4
  {
    RegisterAppend(c, ByteBits(s[0]), Bits(s[1..]));
    RegisterAppend(c1, ByteBits(s[1]), Bits(s[2..]));
    RegisterAppend(c2, ByteBits(s[2]), Bits(s[3..]));
    RegisterAppend(c3, ByteBits(s[3]), Bits(s[4..]));
    assert s[1..][1..] == s[2..] && s[2..][1..] == s[3..] && s[3..][1..] == s[4..] == [];
  }

  lemma SampleSamp(a: seq<byte>)
    requires a == [115, 97, 109, 112]
    ensures Register(Ones, Bits(a)) == 0xf20565fb
  {
    SampleFirstBytes();
    FeedFour(Ones, a, 0xcf4a0b57, 0x168de452, 0x6ee6f871, 0xf20565fb);
  }

  lemma SampleLeB(b: seq<byte>)
    requires b == [108, 101, 32, 98]
    ensures Register(0xf20565fb, Bits(b)) == 0x12cf2676
  {
    SampleMiddleBytes();
    FeedFour(0xf20565fb, b, 0x46909d99, 0xbe6b3038, 0x9a39f490, 0x12cf2676);
  }

  lemma SampleYtes(c: seq<byte>)
    requires c == [121, 116, 101, 115]
    ensures Register(0x12cf2676, Bits(c)) == 0xba588ebe
  {
    SampleLastBytes();
    FeedFour(0x12cf2676, c, 0x5e01f302, 0x5767b216, 0x629fc04b, 0xba588ebe);
  }

  /** The checksum of the twelve bytes of "sample bytes" is 1168601409. */
  lemma SampleBytes(s: seq<byte>)
    requires s == [115, 97, 109, 112, 108, 101, 32, 98, 121, 116, 101, 115]
    ensures Crc(s) == 1168601409
  {
    var a, b, c := s[..4], s[4..8], s[8..];
    SampleSamp(a);
    SampleLeB(b);
    SampleYtes(c);
    assert s == (a + b) + c;
    BitsAppend(a, b);
    BitsAppend(a + b, c);
    RegisterAppend(Ones, Bits(a), Bits(b));
    RegisterAppend(Ones, Bits(a + b), Bits(c));
  }
}
