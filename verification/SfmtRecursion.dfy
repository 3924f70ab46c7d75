/**
 The recursion of the SIMD-oriented Mersenne Twister, on words of 128 bits, and the stream it defines.
 */
module SfmtRecursion {

  const N := 19937 / 128 + 1
  const N32 := N * 4
  const POS1 := 122
  const SL1: bv32 := 18
  const SL2: bv64 := 1
  const SR1: bv32 := 11
  const SR2: bv64 := 1
  const MSK1: bv32 := 0xdfffffef
  const MSK2: bv32 := 0xddfecb7f
  const MSK3: bv32 := 0xbffaffff
  const MSK4: bv32 := 0xbffffff6

  /** Four words of 32 bits, the lowest first. */
  datatype W128 = W128(u0: bv32, u1: bv32, u2: bv32, u3: bv32) {
    function Word(i: nat): bv32
      requires i < 4
    {
      if i == 0 then u0 else if i == 1 then u1 else if i == 2 then u2 else u3
    }
  }

  function Two(x: bv32, y: bv32): bv64 { ((x as bv64) << 32) | (y as bv64) }

  function Low32(x: bv64): bv32 { (x & 0xFFFF_FFFF) as bv32 }

  function High32(x: bv64): bv32 { (x >> 32) as bv32 }

  function Four(a: bv32, b: bv32, c: bv32, d: bv32): bv128 {
    ((a as bv128) << 96) | ((b as bv128) << 64) | ((c as bv128) << 32) | (d as bv128)
  }

  // The upper and the lower half of a word of 128 bits, shifted by whole bytes; the words go from the highest.

  function RightHigh(a: bv32, b: bv32): bv64 { Two(a, b) >> (SR2 * 8) }

  function RightLow(a: bv32, b: bv32, c: bv32, d: bv32): bv64 {
    (Two(c, d) >> (SR2 * 8)) | (Two(a, b) << (64 - SR2 * 8))
  }

  function LeftHigh(a: bv32, b: bv32, c: bv32, d: bv32): bv64 {
    (Two(a, b) << (SL2 * 8)) | (Two(c, d) >> (64 - SL2 * 8))
  }

  function LeftLow(c: bv32, d: bv32): bv64 { Two(c, d) << (SL2 * 8) }

  /** The halves are those of the word shifted as one number. */
  lemma LeftHalves(a: bv32, b: bv32, c: bv32, d: bv32)
    ensures var oh, ol := LeftHigh(a, b, c, d), LeftLow(c, d);
            Four(High32(oh), Low32(oh), High32(ol), Low32(ol)) == Four(a, b, c, d) << 8
  {
  }

  lemma RightHalves(a: bv32, b: bv32, c: bv32, d: bv32)
    ensures var oh, ol := RightHigh(a, b), RightLow(a, b, c, d);
            Four(High32(oh), Low32(oh), High32(ol), Low32(ol)) == Four(a, b, c, d) >> 8
  {
  }

  function RShift128(x: W128): W128 {
    var oh, ol := RightHigh(x.u3, x.u2), RightLow(x.u3, x.u2, x.u1, x.u0);
    W128(Low32(ol), High32(ol), Low32(oh), High32(oh))
  }

  function LShift128(x: W128): W128 {
    var oh, ol := LeftHigh(x.u3, x.u2, x.u1, x.u0), LeftLow(x.u1, x.u0);
    W128(Low32(ol), High32(ol), Low32(oh), High32(oh))
  }

  /** The recursion formula. */
  function DoRecursion(a: W128, b: W128, c: W128, d: W128): W128 {
    var x, y := LShift128(a), RShift128(c);
    W128(a.u0 ^ x.u0 ^ ((b.u0 >> SR1) & MSK1) ^ y.u0 ^ (d.u0 << SL1),
         a.u1 ^ x.u1 ^ ((b.u1 >> SR1) & MSK2) ^ y.u1 ^ (d.u1 << SL1),
         a.u2 ^ x.u2 ^ ((b.u2 >> SR1) & MSK3) ^ y.u2 ^ (d.u2 << SL1),
         a.u3 ^ x.u3 ^ ((b.u3 >> SR1) & MSK4) ^ y.u3 ^ (d.u3 << SL1))
  }

  // ----- the formula on words written out -----

  const ZERO := W128(0, 0, 0, 0)

  /** The shift of the first operand, to the left by eight bits over all words. */
  lemma ShiftedLeft(x: W128)
    ensures LShift128(x) == W128(x.u0 << 8, (x.u1 << 8) | (x.u0 >> 24), (x.u2 << 8) | (x.u1 >> 24),
                                 (x.u3 << 8) | (x.u2 >> 24))
  {
  }

  /** The second operand comes in shifted to the right by eleven bits in each word, under the masks. */
  lemma SecondOperand(b: W128)
    ensures DoRecursion(ZERO, b, ZERO, ZERO) ==
            W128((b.u0 >> 11) & 0xdfffffef, (b.u1 >> 11) & 0xddfecb7f, (b.u2 >> 11) & 0xbffaffff,
                 (b.u3 >> 11) & 0xbffffff6)
  {
  }

  /** The third shifted to the right by eight bits over all words. */
  lemma ThirdOperand(c: W128)
    ensures DoRecursion(ZERO, ZERO, c, ZERO) ==
            W128((c.u0 >> 8) | (c.u1 << 24), (c.u1 >> 8) | (c.u2 << 24), (c.u2 >> 8) | (c.u3 << 24), c.u3 >> 8)
  {
  }

  /** The fourth shifted to the left by eighteen bits in each word. */
  lemma FourthOperand(d: W128)
    ensures DoRecursion(ZERO, ZERO, ZERO, d) == W128(d.u0 << 18, d.u1 << 18, d.u2 << 18, d.u3 << 18)
  {
  }

  /** A known answer for four operands together. */
  lemma KnownAnswer()
    ensures DoRecursion(W128(0x01234567, 0x89abcdef, 0x0fedcba9, 0x87654321),
                        W128(0xffffffff, 0xffffffff, 0xffffffff, 0xffffffff),
                        W128(0xdeadbeef, 0x00c0ffee, 0xfeedface, 0x8badf00d),
                        W128(0x00000001, 0x00000003, 0x00003fff, 0x12345678)) ==
            W128(0xcca37036, 0xec74296e, 0x103e7025, 0xbb523028)
  {
  }
}
