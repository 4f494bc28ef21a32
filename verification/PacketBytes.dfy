/** What the receiver does to a packet, byte by byte: which packets count as pings and which get a reply,
    with every field at its absolute position on the wire. */
module PacketBytes {
  import opened Accumulator
  import opened Addressing
  import opened Neighbors
  import opened Pixels
  import opened Receiver
  import opened Words

  /** The value of a byte's two decimal digits. */
  function Decimal(b: byte): nat { b / 16 * 10 + b % 16 }

  /** A packet is taken as a ping exactly if it is an ICMPv6 echo request (ether type 0x86DD, next header 58,
      type 128, code 0) of 58 to 200 bytes to an address under the prefix; the source address is counted as its
      sender, and the destination address is read as coordinates and colour. */
  lemma EchoIff(settings: Settings, p: Packet)
    ensures var e := Classify(settings, p);
            && (e.Echo? <==>
                && 58 <= |p| <= 200 && p[12] == 0x86 && p[13] == 0xDD && p[20] == 58 && p[54] == 128 && p[55] == 0
                && SamePrefix(p[38..54], settings.prefix, if settings.cidr < 128 then settings.cidr else 128))
            && (e.Echo? ==>
                  && e.sender == p[22..38]
                  && e.request.x == 100 * Decimal(p[44]) + Decimal(p[45])
                  && e.request.y == 100 * Decimal(p[46]) + Decimal(p[47])
                  && e.request.r == p[49] && e.request.g == p[51] && e.request.b == p[53])
  {
    if 58 <= |p| {
      CoordinateDigits(p[44], p[45]);
      CoordinateDigits(p[46], p[47]);
    }
    hide SamePrefix, Coordinate;
  }

  /** Under a prefix of at most 48 bits it is enough that the first six bytes of the destination are those of the
      prefix. */
  lemma UnderPrefix(settings: Settings, dst: Address)
    requires settings.cidr <= 48 && dst[..6] == settings.prefix[..6]
    ensures SamePrefix(dst, settings.prefix, settings.cidr)
  {
    hide Bit;
    forall k: nat | k < settings.cidr
      ensures AddressBit(dst, k) <==> AddressBit(settings.prefix, k)
    {
      assert k / 8 < 6;
      assert dst[k / 8] == dst[..6][k / 8] && settings.prefix[k / 8] == settings.prefix[..6][k / 8];
    }
  }

  lemma PingIsEcho(settings: Settings, p: Packet)
    requires 58 <= |p| <= 200 && p[12] == 0x86 && p[13] == 0xDD && p[20] == 58 && p[54] == 128 && p[55] == 0
    requires settings.cidr <= 48 && p[38..44] == settings.prefix[..6]
    ensures Classify(settings, p).Echo?
  {
    hide SamePrefix, Classify;
    var dst: Address := p[38..54];
    assert dst[..6] == p[38..44];
    UnderPrefix(settings, dst);
    EchoIff(settings, p);
  }

  /** Pixel q after a ping of this colour: 16-bit sums and a 16-bit count. */
  predicate OnePingMore(q: Rgba16, q': Rgba16, r: byte, g: byte, b: byte) {
    && q'.r == (q.r + r) % 0x1_0000 && q'.g == (q.g + g) % 0x1_0000 && q'.b == (q.b + b) % 0x1_0000
    && q'.a == (q.a + 1) % 0x1_0000
  }

  /** What such a ping for pixel (x, y), at place i of the frame, does: its colour is added to the sums of its pixel
      and one to the pixel's count, if the pixel is on screen; one is added to the 64-bit counter of the source
      address; nothing else changes. */
  lemma PingEffect(settings: Settings, c: Counters, p: Packet, x: nat, y: nat, i: nat)
    requires |c.frame| == Size(settings)
    requires 58 <= |p| <= 200 && p[12] == 0x86 && p[13] == 0xDD && p[20] == 58 && p[54] == 128 && p[55] == 0
    requires settings.cidr <= 48 && p[38..44] == settings.prefix[..6]
    requires x == 100 * Decimal(p[44]) + Decimal(p[45]) && y == 100 * Decimal(p[46]) + Decimal(p[47])
    requires i == x + y * settings.width
    ensures var after := Handle(settings, c, Classify(settings, p));
            && |after.frame| == |c.frame| && after.replies == c.replies
            && (x < settings.width && y < settings.height ==>
                  i < |c.frame| && OnePingMore(c.frame[i], after.frame[i], p[49], p[51], p[53]))
            && (forall k :: 0 <= k < |c.frame| && (k != i || x >= settings.width || y >= settings.height) ==>
                  after.frame[k] == c.frame[k])
    ensures var count := if p[22..38] in c.senders then c.senders[p[22..38]] else 0;
            Handle(settings, c, Classify(settings, p)).senders
            == c.senders[p[22..38] := (count + 1) % 0x1_0000_0000_0000_0000]
  {
    hide SamePrefix, Classify, Decimal;
    PingIsEcho(settings, p);
    EchoIff(settings, p);
    if x < settings.width && y < settings.height {
      IndexInRange(settings.width, settings.height, x, y);
    }
    hide Index;
  }

  /** An echo request of more than 200 bytes has no effect, nor has one to an address outside the prefix. */
  lemma OtherPingsIgnored(settings: Settings, c: Counters, p: Packet)
    requires |c.frame| == Size(settings)
    requires 58 <= |p| && p[54] == 128
    requires |p| > 200 || !SamePrefix(p[38..54], settings.prefix, if settings.cidr < 128 then settings.cidr else 128)
    ensures Handle(settings, c, Classify(settings, p)) == c
  {
    hide SamePrefix, Decode;
  }

  /** Packets that are too short, not IPv6, not ICMPv6, or of another ICMPv6 type or code have no effect, whatever
      else they hold. */
  lemma OtherPacketsIgnored(settings: Settings, c: Counters, p: Packet)
    requires |c.frame| == Size(settings)
    requires |p| < 58 || p[12..14] != [0x86, 0xDD] || p[20] != 58 || p[54] !in {128, 135} || p[55] != 0
    ensures Handle(settings, c, Classify(settings, p)) == c
  {
    hide SamePrefix, Decode;
    if |p| >= 58 && p[12] == 0x86 && p[13] == 0xDD {
      assert p[12..14] == [0x86, 0xDD];
    }
  }

  /** A packet gets a reply exactly if it is a solicitation (type 135, code 0) of at least 78 bytes for the own
      address. The one reply is an ICMPv6 advertisement of 86 bytes that goes back to the MAC and the address the
      solicitation came from, and names the own MAC and address; nothing is counted. */
  lemma ReplyIff(settings: Settings, c: Counters, p: Packet)
    requires |c.frame| == Size(settings)
    ensures var after := Handle(settings, c, Classify(settings, p));
            if |p| >= 78 && p[12..14] == [0x86, 0xDD] && p[20] == 58 && p[54] == 135 && p[55] == 0
               && p[62..78] == settings.address
            then
              && after.frame == c.frame && after.senders == c.senders && |after.replies| == |c.replies| + 1
              && after.replies[..|c.replies|] == c.replies
              && var reply := after.replies[|c.replies|];
                 && |reply| == 86 && reply[0..6] == p[6..12] && reply[6..12] == settings.mac
                 && reply[12..14] == [0x86, 0xDD] && reply[20] == 58 && reply[22..38] == settings.address
                 && reply[38..54] == p[22..38] && reply[54] == 136 && reply[55] == 0
                 && reply[62..78] == settings.address && reply[80..86] == settings.mac
            else after.replies == c.replies
  {
    hide SamePrefix, Decode, Advertisement, CountPing, CountSender;
    if |p| >= 78 {
      assert p[12..14] == [0x86, 0xDD] <==> p[12] == 0x86 && p[13] == 0xDD;
      AdvertisementLayout(settings.order, settings.address, settings.mac, p[6..12], p[22..38]);
    }
  }
}
