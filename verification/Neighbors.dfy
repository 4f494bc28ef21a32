/** The Neighbor Advertisement that the receiver sends for a solicitation of its own address
    (section 4.4 of RFC 4861). */
module Neighbors {
  import opened Addressing
  import opened Checksum
  import opened Words

  type Mac = m: seq<byte> | |m| == 6 witness seq(6, _ => 0)

  const ETHER_HEADER := 14
  const IPV6_HEADER := 40
  const ICMP6_HEADER := 4
  const NDP_HEADER := 20
  const LINK_LAYER_OPTION := 8
  const ICMP6_PROTOCOL := 58

  const ICMP_OFFSET := ETHER_HEADER + IPV6_HEADER
  const PAYLOAD_LENGTH := ICMP6_HEADER + NDP_HEADER + LINK_LAYER_OPTION
  const REPLY_LENGTH := ICMP_OFFSET + PAYLOAD_LENGTH

  // ----- layout -----

  function EtherHeader(destination: Mac, source: Mac): (h: seq<byte>)
    ensures |h| == ETHER_HEADER
  {
    destination + source + [0x86, 0xDD]
  }

  /** Version 6, the payload length, protocol 58 and hop limit 255. */
  function Ipv6Header(source: Address, destination: Address): (h: seq<byte>)
    ensures |h| == IPV6_HEADER
  {
    [0x60, 0, 0, 0] + [PAYLOAD_LENGTH / 256, PAYLOAD_LENGTH % 256] + [ICMP6_PROTOCOL, 0xFF] + source + destination
  }

  /** Flags solicited and override, the target, and the target link-layer address option. */
  function AdvertisementBody(target: Address, mac: Mac): (b: seq<byte>)
    ensures |b| == NDP_HEADER + LINK_LAYER_OPTION
  {
    [0x60, 0, 0, 0] + target + [2, 1] + mac
  }

  /** An ICMPv6 advertisement with the given checksum field. */
  function AdvertisementMessage(checksum: seq<byte>, target: Address, mac: Mac): (m: seq<byte>)
    requires |checksum| == 2
    ensures |m| == PAYLOAD_LENGTH
  {
    [136, 0] + checksum + AdvertisementBody(target, mac)
  }

  /** The pseudo-header of section 8.1 of RFC 8200. */
  function PseudoHeader(source: Address, destination: Address, length: word): (h: seq<byte>)
    ensures |h| == 40
  {
    source + destination + [0, 0, length / 256, length % 256] + [0, 0, 0, ICMP6_PROTOCOL]
  }

  /** The checksum field for an ICMPv6 message whose own field is zero. */
  function ChecksumField(order: ByteOrder, source: Address, destination: Address, message: seq<byte>)
    : (field: seq<byte>)
    requires |message| < 0x1_0000
    ensures |field| == 2
  {
    Store(order, Complement(WordSum(order, PseudoHeader(source, destination, |message|) + message)))
  }

  /** The reply to a solicitation for `own` from the given hardware and IPv6 addresses. */
  function Advertisement(order: ByteOrder, own: Address, mac: Mac, requesterMac: Mac, requester: Address)
    : (reply: seq<byte>)
    ensures |reply| == REPLY_LENGTH
  {
    EtherHeader(requesterMac, mac) + Ipv6Header(own, requester)
    + AdvertisementMessage(ChecksumField(order, own, requester, AdvertisementMessage([0, 0], own, mac)), own, mac)
  }

  // ----- any receiver accepts the reply -----

  /** For every own address, MAC and requester, and for either byte order of the host, the advertisement's
      checksum verifies, including the case of a zero sum sent as 0xFFFF: the one's-complement sum over the addresses
      of the packet, its payload length 32, next header 58 and the payload is 0xFFFF. */
  lemma AdvertisementChecksumValid(order: ByteOrder, own: Address, mac: Mac, requesterMac: Mac, requester: Address)
    ensures var reply := Advertisement(order, own, mac, requesterMac, requester);
            Fold(WordSum(Big, reply[22..38] + reply[38..54] + [0, 0, 0, 32, 0, 0, 0, 58] + reply[54..])) == 0xFFFF
  {
    var reply := Advertisement(order, own, mac, requesterMac, requester);
    var pseudo := own + requester + [0, 0, 0, 32, 0, 0, 0, 58];
    var body := AdvertisementBody(own, mac);
    var zeroed := AdvertisementMessage([0, 0], own, mac);
    var field := ChecksumField(order, own, requester, zeroed);
    AdvertisementLayout(order, own, mac, requesterMac, requester);
    assert PseudoHeader(own, requester, 32) == pseudo;
    hide WordSum, Complement, Fold, Store, EtherHeader, Ipv6Header, AdvertisementBody, PseudoHeader;
    var before := pseudo + [136, 0];
    assert pseudo + zeroed == before + [0, 0] + body;
    assert pseudo + reply[54..] == before + field + body;
    StoredChecksumVerifies(order, before, body);
  }

  /** All 86 bytes of the reply, with the two of the checksum at 56. */
  lemma AdvertisementLayout(order: ByteOrder, own: Address, mac: Mac, requesterMac: Mac, requester: Address)
    ensures var reply := Advertisement(order, own, mac, requesterMac, requester);
            var field := ChecksumField(order, own, requester, AdvertisementMessage([0, 0], own, mac));
            && |reply| == 86
            && reply[0..6] == requesterMac && reply[6..12] == mac && reply[12..14] == [0x86, 0xDD]
            && reply[14..22] == [0x60, 0, 0, 0, 0, 32, 58, 255] && reply[22..38] == own && reply[38..54] == requester
            && reply[54..56] == [136, 0] && reply[56..58] == field && reply[58..62] == [0x60, 0, 0, 0]
            && reply[62..78] == own && reply[78..80] == [2, 1] && reply[80..86] == mac
            && reply[54..] == AdvertisementMessage(field, own, mac)
  {
    hide ChecksumField;
  }

  // ----- building it in place -----

  /** memcpy into a packet buffer. */
  method Copy(buffer: array<byte>, offset: nat, bytes: seq<byte>)
    requires offset + |bytes| <= buffer.Length
    modifies buffer
    ensures forall k :: 0 <= k < buffer.Length ==>
              buffer[k] == if offset <= k < offset + |bytes| then bytes[k - offset] else old(buffer[k])
  {
    var i := 0;
    while i < |bytes|
      invariant 0 <= i <= |bytes|
      invariant forall k :: 0 <= k < buffer.Length ==>
                  buffer[k] == if offset <= k < offset + i then bytes[k - offset] else old(buffer[k])
    {
      buffer[offset + i] := bytes[i];
      i := i + 1;
    }
  }

  method FillEther(buffer: array<byte>, destination: Mac, source: Mac)
    requires buffer.Length == REPLY_LENGTH
    modifies buffer
    ensures forall k :: 0 <= k < REPLY_LENGTH ==>
              buffer[k] == if k < ETHER_HEADER then EtherHeader(destination, source)[k] else old(buffer[k])
  {
    Copy(buffer, 0, destination);
    Copy(buffer, 6, source);
    buffer[12], buffer[13] := 0x86, 0xDD;
  }

  method FillIpv6(buffer: array<byte>, source: Address, destination: Address)
    requires buffer.Length == REPLY_LENGTH
    modifies buffer
    ensures forall k :: 0 <= k < REPLY_LENGTH ==>
              buffer[k] ==
              if ETHER_HEADER <= k < ICMP_OFFSET then Ipv6Header(source, destination)[k - ETHER_HEADER]
              else old(buffer[k])
  {
    Copy(buffer, ETHER_HEADER + 8, source);
    Copy(buffer, ETHER_HEADER + 24, destination);
    buffer[ETHER_HEADER + 6] := ICMP6_PROTOCOL;
    buffer[ETHER_HEADER + 7] := 0xFF;
    Copy(buffer, ETHER_HEADER, [0x60, 0, 0, 0]);
    Copy(buffer, ETHER_HEADER + 4, [PAYLOAD_LENGTH / 256, PAYLOAD_LENGTH % 256]);
  }

  method FillMessage(buffer: array<byte>, target: Address, mac: Mac)
    requires buffer.Length == REPLY_LENGTH
    requires forall k :: ICMP_OFFSET <= k < REPLY_LENGTH ==> buffer[k] == 0
    modifies buffer
    ensures forall k :: 0 <= k < REPLY_LENGTH ==>
              buffer[k] ==
              if ICMP_OFFSET <= k then AdvertisementMessage([0, 0], target, mac)[k - ICMP_OFFSET]
              else old(buffer[k])
  {
    buffer[ICMP_OFFSET] := 136;
    Copy(buffer, ICMP_OFFSET + 4, [0x60, 0, 0, 0]);
    Copy(buffer, ICMP_OFFSET + 8, target);
    buffer[ICMP_OFFSET + 24] := 2;
    buffer[ICMP_OFFSET + 25] := 1;
    Copy(buffer, ICMP_OFFSET + 26, mac);
  }

  /** The reply as the handler fills it in: zeroed headers, then the fields, and last the checksum
      over a copy of the message. */
  method BuildAdvertisement(order: ByteOrder, own: Address, mac: Mac, requesterMac: Mac, requester: Address,
                            target: Address)
    returns (reply: seq<byte>)
    requires target == own
    ensures reply == Advertisement(order, own, mac, requesterMac, requester)
  {
    hide EtherHeader, Ipv6Header, AdvertisementMessage, ChecksumField;
    var buffer := new byte[REPLY_LENGTH](_ => 0);
    FillEther(buffer, requesterMac, mac);
    FillIpv6(buffer, own, requester);
    FillMessage(buffer, target, mac);
    var zeroed := AdvertisementMessage([0, 0], own, mac);
    assert buffer[ICMP_OFFSET..] == zeroed;
    var field := ChecksumField(order, own, requester, buffer[ICMP_OFFSET..]);
    Copy(buffer, ICMP_OFFSET + 2, field);
    SetChecksum(field, own, mac);
    reply := buffer[..];
  }

  /** Storing the checksum changes nothing else in the message. */
  lemma SetChecksum(field: seq<byte>, target: Address, mac: Mac)
    requires |field| == 2
    ensures forall k :: 0 <= k < PAYLOAD_LENGTH ==>
              AdvertisementMessage(field, target, mac)[k] ==
              if 2 <= k < 4 then field[k - 2] else AdvertisementMessage([0, 0], target, mac)[k]
  {}
}
