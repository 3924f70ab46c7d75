/**
 Integers as the machine stores them: two's complement, the low byte first.
 */
module MachineInts {
  import opened Basics

  predicate IsInt(n: int) { -0x8000_0000 <= n < 0x8000_0000 }

  function EncodeInt(n: int): (bs: seq<Byte>)
    ensures |bs| == 4
  {
    var u := n % 0x1_0000_0000;
    var q1 := u / 256;
    var q2 := q1 / 256;
    [u % 256, q1 % 256, q2 % 256, q2 / 256]
  }

  function DecodeInt(b0: Byte, b1: Byte, b2: Byte, b3: Byte): int {
    var u := b0 + 256 * (b1 + 256 * (b2 + 256 * b3));
    if u < 0x8000_0000 then u else u - 0x1_0000_0000
  }

  lemma IntRoundTrip(n: int)
    requires IsInt(n)
    ensures var bs := EncodeInt(n); DecodeInt(bs[0], bs[1], bs[2], bs[3]) == n
  {
  }

  predicate IsLong(n: int) { -0x8000_0000_0000_0000 <= n < 0x8000_0000_0000_0000 }

  function EncodeLong(n: int): (bs: seq<Byte>)
    ensures |bs| == 8
  {
    EncodeInt(n) + EncodeInt(n / 0x1_0000_0000)
  }

  function DecodeLong(bs: seq<Byte>): int
    requires |bs| == 8
  {
    DecodeInt(bs[0], bs[1], bs[2], bs[3]) % 0x1_0000_0000 +
    0x1_0000_0000 * DecodeInt(bs[4], bs[5], bs[6], bs[7])
  }

  /** A long is read back when both its halves are. */
  lemma LongFromHalves(n: int, bs: seq<Byte>)
    requires |bs| == 8 && DecodeInt(bs[4], bs[5], bs[6], bs[7]) == n / 0x1_0000_0000
    requires DecodeInt(bs[0], bs[1], bs[2], bs[3]) % 0x1_0000_0000 == n % 0x1_0000_0000
    ensures DecodeLong(bs) == n
  {
    hide DecodeInt;
  }

  lemma LowRoundTrip(n: int)
    ensures var bs := EncodeInt(n); DecodeInt(bs[0], bs[1], bs[2], bs[3]) % 0x1_0000_0000 == n % 0x1_0000_0000
  {
  }
}
