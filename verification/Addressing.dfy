/** Reading an IPv6 destination address as a ping: the prefix test and the coordinate digits. */
module Addressing {
  import opened Words

  type Address = a: seq<byte> | |a| == 16 witness seq(16, _ => 0)

  // ----- prefix -----

  predicate AddressBit(a: Address, k: nat)
    requires k < 128
  {
    Bit(a[k / 8], k % 8)
  }

  /** Two addresses have the same first `bits` bits (section 2.3 of RFC 4291). */
  predicate SamePrefix(a: Address, b: Address, bits: nat)
    requires bits <= 128
  {
    forall k: nat :: k < bits ==> (AddressBit(a, k) <==> AddressBit(b, k))
  }

  function PrefixBits(cidr: byte): nat { if cidr < 128 then cidr else 128 }

  predicate SameByteBits(a: byte, b: byte, n: nat) {
    forall k: nat :: k < 8 && k < n ==> (Bit(a, k) <==> Bit(b, k))
  }

  /** The bits of the first whole bytes and of part of the byte after them. */
  lemma SamePrefixIff(a: Address, b: Address, bytes: nat, bits: nat)
    requires bytes <= 15 && bits <= 8
    ensures SamePrefix(a, b, 8 * bytes + bits) <==>
            (forall i :: 0 <= i < bytes ==> a[i] == b[i]) && SameByteBits(a[bytes], b[bytes], bits)
  {
    if SamePrefix(a, b, 8 * bytes + bits) {
      forall i | 0 <= i < bytes
        ensures a[i] == b[i]
      {
        forall k: nat | k < 8
          ensures Bit(a[i], k) <==> Bit(b[i], k)
        {
          assert AddressBit(a, 8 * i + k) <==> AddressBit(b, 8 * i + k);
        }
        SameBits(a[i], b[i]);
      }
      forall k: nat | k < bits
        ensures Bit(a[bytes], k) <==> Bit(b[bytes], k)
      {
        assert AddressBit(a, 8 * bytes + k) <==> AddressBit(b, 8 * bytes + k);
      }
    }
  }

  /** Comparing two bytes under a mask compares the bits that the mask keeps. */
  lemma MaskedEqualIff(a: byte, b: byte, mask: byte, n: nat)
    requires forall k: nat :: k < 8 ==> (Bit(mask, k) <==> k < n)
    ensures BitAnd(a, mask) == BitAnd(b, mask) <==> SameByteBits(a, b, n)
  {
    forall k: nat | k < 8
      ensures Bit(BitAnd(a, mask), k) <==> Bit(a, k) && k < n
      ensures Bit(BitAnd(b, mask), k) <==> Bit(b, k) && k < n
    {
      BitAndBits(a, mask, k);
      BitAndBits(b, mask, k);
    }
    hide BitAnd, Bit;
    if SameByteBits(a, b, n) {
      SameBits(BitAnd(a, mask), BitAnd(b, mask));
    } else {
      var k: nat :| k < 8 && k < n && Bit(a, k) != Bit(b, k);
      assert Bit(BitAnd(a, mask), k) != Bit(BitAnd(b, mask), k);
    }
  }

  /** The mask loop: eight shifts build the byte whose first l bits are set. */
  method BuildMask(l: byte) returns (mask: byte)
    ensures forall k: nat :: k < 8 ==> (Bit(mask, k) <==> k < l)
  {
    hide BitOr, Bit;
    mask := 0;
    var j := 0;
    forall k: nat | k < 8
      ensures !Bit(0, k)
    {
      NoBits(k);
    }
    while j < 8
      invariant 0 <= j <= 8
      invariant forall k: nat :: k < 8 ==> (Bit(mask, k) <==> 8 - j <= k && k - (8 - j) < l)
    {
      ghost var before := mask;
      var low: byte := if j < l then 1 else 0;
      mask := U8(mask * 2);
      ghost var shifted := mask;
      mask := BitOr(mask, low);
      forall k: nat | k < 8
        ensures Bit(mask, k) <==> 7 - j <= k && k - (7 - j) < l
      {
        ShiftLeftBits(before, k);
        BitOrBits(shifted, low, k);
        LowBit(low, k);
      }
      j := j + 1;
    }
  }

  lemma NoBits(k: nat)
    requires k < 8
    ensures !Bit(0, k)
  {
    NoDigits(7 - k);
  }

  lemma {:induction false} NoDigits(k: nat)
    ensures !Digit(0, k)
  {
    if k > 0 {
      NoDigits(k - 1);
    }
  }

  lemma LowBit(b: byte, k: nat)
    requires k < 8 && b < 2
    ensures Bit(b, k) <==> b == 1 && k == 7
  {
    if k < 7 {
      NoDigits(6 - k);
    }
  }

  /** The prefix test of the echo handler accepts exactly the addresses that share the configured
      prefix, for every prefix length a byte can hold, and reads no byte outside the address. */
  method MatchesPrefix(dst: Address, prefix: Address, cidr: byte) returns (matches: bool)
    ensures matches <==> SamePrefix(dst, prefix, PrefixBits(cidr))
  {
    hide BitAnd, Bit, SamePrefix, SameByteBits, PrefixBits, U8;
    var fb := cidr / 8;
    var i := 0;
    while i < fb && i < 15
      invariant 0 <= i <= 15 && i <= fb
      invariant forall k :: 0 <= k < i ==> dst[k] == prefix[k]
    {
      if dst[i] != prefix[i] {
        WholeBytes(cidr, i);
        WholeByteDiffers(dst, prefix, i, PrefixBits(cidr));
        return false;
      }
      i := i + 1;
    }
    var l := U8(cidr - i * 8);
    var mask := BuildMask(l);
    matches := BitAnd(dst[i], mask) == BitAnd(prefix[i], mask);
    MaskedEqualIff(dst[i], prefix[i], mask, l);
    LastBits(cidr, i);
    SameCappedBits(dst[i], prefix[i], l);
    SamePrefixIff(dst, prefix, i, if l < 8 then l else 8);
  }

  lemma WholeBytes(cidr: byte, i: nat)
    requires i < cidr / 8 && i < 15
    ensures 8 * i + 8 <= PrefixBits(cidr) <= 128
  {}

  /** What is left of the prefix for the byte after the loop. */
  lemma LastBits(cidr: byte, i: nat)
    requires i <= 15 && i <= cidr / 8 && (i == cidr / 8 || i == 15)
    ensures var l := U8(cidr - i * 8); PrefixBits(cidr) == 8 * i + (if l < 8 then l else 8)
  {}

  lemma SameCappedBits(a: byte, b: byte, l: nat)
    ensures SameByteBits(a, b, l) <==> SameByteBits(a, b, if l < 8 then l else 8)
  {
    hide Bit;
  }

  lemma WholeByteDiffers(a: Address, b: Address, i: nat, bits: nat)
    requires i < 16 && a[i] != b[i] && 8 * i + 8 <= bits <= 128
    ensures !SamePrefix(a, b, bits)
  {
    if SamePrefix(a, b, bits) {
      forall k: nat | k < 8
        ensures Bit(a[i], k) <==> Bit(b[i], k)
      {
        assert AddressBit(a, 8 * i + k) <==> AddressBit(b, 8 * i + k);
      }
      SameBits(a[i], b[i]);
    }
  }

  // ----- coordinates -----

  /** Four digits of a coordinate, two in each byte. */
  function Coordinate(high: byte, low: byte): word {
    U16(BitAnd(low, 0xF) + BitAnd(low, 0xF0) / 16 * 10 + BitAnd(high, 0xF) * 100 + BitAnd(high, 0xF0) / 16 * 1000)
  }

  /** The decoded value is the digit sum in decimal weights, at most 16665: its 16-bit conversion
      never changes it. */
  lemma CoordinateDigits(high: byte, low: byte)
    ensures Coordinate(high, low) == low % 16 + low / 16 * 10 + high % 16 * 100 + high / 16 * 1000
    ensures Coordinate(high, low) <= 16665
  {
    Nibbles(low);
    Nibbles(high);
    hide BitAnd;
  }

  /** Binary coded decimal: every half byte is a decimal digit. */
  predicate IsBcd(b: byte) { b / 16 < 10 && b % 16 < 10 }

  /** The two bytes that spell n in decimal digits. */
  function Encode(n: nat): (byte, byte)
    requires n <= 9999
  {
    (n / 1000 * 16 + n / 100 % 10, n / 10 % 10 * 16 + n % 10)
  }

  /** Two bytes with a decimal digit in every half decode to the number these digits spell. */
  lemma SpelledDigits(d3: nat, d2: nat, d1: nat, d0: nat)
    requires d3 < 10 && d2 < 10 && d1 < 10 && d0 < 10
    ensures IsBcd(d3 * 16 + d2) && IsBcd(d1 * 16 + d0)
    ensures Coordinate(d3 * 16 + d2, d1 * 16 + d0) == d0 + d1 * 10 + d2 * 100 + d3 * 1000
  {
    hide Coordinate;
    TwoDigits(d3, d2);
    TwoDigits(d1, d0);
    CoordinateDigits(d3 * 16 + d2, d1 * 16 + d0);
  }

  /** Every coordinate up to 9999 survives encoding and decoding. */
  lemma DecodeEncode(n: nat)
    requires n <= 9999
    ensures IsBcd(Encode(n).0) && IsBcd(Encode(n).1)
    ensures Coordinate(Encode(n).0, Encode(n).1) == n
  {
    hide Coordinate, IsBcd;
    DigitsOf(n);
    var d3, d2, d1, d0 := n / 1000, n / 100 % 10, n / 10 % 10, n % 10;
    SpelledDigits(d3, d2, d1, d0);
    assert Encode(n) == (d3 * 16 + d2, d1 * 16 + d0);
  }

  lemma TwoDigits(tens: nat, ones: nat)
    requires tens < 10 && ones < 10
    ensures (tens * 16 + ones) / 16 == tens && (tens * 16 + ones) % 16 == ones
  {}

  lemma DigitsOf(n: nat)
    requires n <= 9999
    ensures n == n % 10 + n / 10 % 10 * 10 + n / 100 % 10 * 100 + n / 1000 * 1000
  {
    var m := n / 10;
    assert n / 100 == m / 10;
    assert n / 1000 == m / 10 / 10;
  }

  lemma DecimalDigits(d0: nat, d1: nat, d2: nat, d3: nat)
    requires d0 < 10 && d1 < 10 && d2 < 10 && d3 < 10
    ensures var n := d0 + d1 * 10 + d2 * 100 + d3 * 1000;
            n / 1000 == d3 && n / 100 % 10 == d2 && n / 10 % 10 == d1 && n % 10 == d0
  {
    var n := d0 + d1 * 10 + d2 * 100 + d3 * 1000;
    assert n / 10 == d1 + d2 * 10 + d3 * 100;
    assert n / 100 == d2 + d3 * 10;
  }

  lemma EncodeDigits(d0: nat, d1: nat, d2: nat, d3: nat)
    requires d0 < 10 && d1 < 10 && d2 < 10 && d3 < 10
    ensures d0 + d1 * 10 + d2 * 100 + d3 * 1000 <= 9999
    ensures Encode(d0 + d1 * 10 + d2 * 100 + d3 * 1000) == (d3 * 16 + d2, d1 * 16 + d0)
  {
    DecimalDigits(d0, d1, d2, d3);
  }

  lemma HalfBytes(b: byte)
    ensures b / 16 * 16 + b % 16 == b
  {}

  /** On decimal digits decoding is injective. */
  lemma EncodeDecode(high: byte, low: byte)
    requires IsBcd(high) && IsBcd(low)
    ensures Coordinate(high, low) <= 9999
    ensures Encode(Coordinate(high, low)) == (high, low)
  {
    hide Coordinate, Encode;
    CoordinateDigits(high, low);
    EncodeDigits(low % 16, low / 16, high % 16, high / 16);
    HalfBytes(high);
    HalfBytes(low);
  }

  /** Two bytes encode a coordinate exactly if they are decimal digits that decode to it. */
  lemma EncodesIff(high: byte, low: byte, n: nat)
    ensures n <= 9999 && (high, low) == Encode(n) <==>
            && high / 16 < 10 && high % 16 < 10 && low / 16 < 10 && low % 16 < 10
            && n == high / 16 * 1000 + high % 16 * 100 + low / 16 * 10 + low % 16
  {
    hide Coordinate, Encode;
    CoordinateDigits(high, low);
    if n <= 9999 {
      DecodeEncode(n);
    }
    if IsBcd(high) && IsBcd(low) {
      EncodeDecode(high, low);
    }
  }

  // ----- pings -----

  /** What a destination address asks for: a coordinate pair and a colour. */
  datatype Request = Request(x: word, y: word, r: byte, g: byte, b: byte)

  function Decode(dst: Address): Request {
    Request(Coordinate(dst[6], dst[7]), Coordinate(dst[8], dst[9]), dst[11], dst[13], dst[15])
  }

  /** An address that spells a pixel and a colour behind the first six bytes of the prefix; bytes 10,
      12 and 14 are free. */
  predicate Spells(dst: Address, prefix: Address, x: nat, y: nat, r: byte, g: byte, b: byte) {
    && x <= 9999 && y <= 9999 && dst[..6] == prefix[..6]
    && (dst[6], dst[7]) == Encode(x) && (dst[8], dst[9]) == Encode(y)
    && dst[11] == r && dst[13] == g && dst[15] == b
  }

  /** Under a prefix of at most 48 bits such an address passes the prefix test and decodes to what it spells. */
  lemma SpelledAddress(dst: Address, prefix: Address, cidr: byte, x: nat, y: nat, r: byte, g: byte, b: byte)
    requires cidr <= 48 && Spells(dst, prefix, x, y, r, g, b)
    ensures SamePrefix(dst, prefix, PrefixBits(cidr)) && Decode(dst) == Request(x, y, r, g, b)
  {
    DecodeEncode(x);
    DecodeEncode(y);
    hide Coordinate, Bit;
    forall k: nat | k < PrefixBits(cidr)
      ensures AddressBit(dst, k) <==> AddressBit(prefix, k)
    {
      assert k / 8 < 6;
      assert dst[k / 8] == dst[..6][k / 8] && prefix[k / 8] == prefix[..6][k / 8];
    }
  }
}
