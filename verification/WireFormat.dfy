/**
 The wire formats by byte position and number: what each parser makes of which bytes, and what each writer refuses.
 Every position, length, type number and flag is written out, independently of the constants of the codecs.
 */
module WireFormat {
  import opened NetTypes
  import opened Checksum
  import E = Ethernet
  import A = Arp
  import P = Ipv4
  import I = Icmp
  import U = Udp
  import T = Tcp

  /** The number in two bytes, most significant first. */
  function Number16(s: seq<Byte>, i: nat): nat
    requires i + 2 <= |s|
  {
    var hi: nat, lo: nat := s[i], s[i + 1];
    hi * 0x100 + lo
  }

  /** The number in four bytes, most significant first. */
  function Number32(s: seq<Byte>, i: nat): nat
    requires i + 4 <= |s|
  {
    Number16(s, i) * 0x1_0000 + Number16(s, i + 2)
  }

  function MacAt(s: seq<Byte>, i: nat): MacAddress
    requires i + 6 <= |s|
  {
    MacAddress(s[i], s[i + 1], s[i + 2], s[i + 3], s[i + 4], s[i + 5])
  }

  function IpAt(s: seq<Byte>, i: nat): Ipv4Addr
    requires i + 4 <= |s|
  {
    Ipv4Addr(s[i], s[i + 1], s[i + 2], s[i + 3])
  }

  /** The bytes add up to a multiple of 0xffff: the receiver's test. */
  predicate Balanced(sum: nat) {
    sum % 0xffff == 0
  }

  lemma EthernetByPosition(data: seq<Byte>)
    ensures match E.Parse(data)
            case Err(FrameTooShort(actual, minimum)) => actual == |data| < 14 == minimum
            case Ok(f) =>
              && |data| >= 14 && f.destinationMac == MacAt(data, 0) && f.sourceMac == MacAt(data, 6)
              && f.payload == data[14..]
              && match f.etherType
                 case Ipv4 => data[12..14] == [0x08, 0x00]
                 case Arp => data[12..14] == [0x08, 0x06]
                 case Ipv6 => data[12..14] == [0x86, 0xdd]
                 case Unknown(value) =>
                   value == Number16(data, 12) && value != 0x0800 && value != 0x0806 && value != 0x86dd
  {
  }

  lemma ArpByPosition(data: seq<Byte>)
    ensures match A.Parse(data)
            case Err(PacketTooShort(actual, minimum)) => actual == |data| < 28 == minimum
            case Err(UnsupportedHardwareType(value)) => |data| >= 28 && value == Number16(data, 0) != 1
            case Err(UnsupportedProtocolType(value)) =>
              |data| >= 28 && data[..2] == [0, 1] && value == Number16(data, 2) != 0x0800
            case Err(InvalidHardwareAddressLength(length)) =>
              |data| >= 28 && data[..4] == [0, 1, 8, 0] && length == data[4] != 6
            case Err(InvalidProtocolAddressLength(length)) =>
              |data| >= 28 && data[..5] == [0, 1, 8, 0, 6] && length == data[5] != 4
            case Ok(p) =>
              && |data| >= 28 && data[..6] == [0, 1, 8, 0, 6, 4] && p.hardwareSize == 6 && p.protocolSize == 4
              && p.senderMac == MacAt(data, 8) && p.senderIp == IpAt(data, 14)
              && p.targetMac == MacAt(data, 18) && p.targetIp == IpAt(data, 24) && p.trailingBytes == data[28..]
              && match p.operation
                 case Request => Number16(data, 6) == 1
                 case Reply => Number16(data, 6) == 2
                 case Unknown(value) => value == Number16(data, 6) && value != 1 && value != 2
  {
  }

  /** The header and the total length are possible and the bytes are there. */
  predicate Ipv4Fits(data: seq<Byte>) {
    |data| >= 20 && 0x45 <= data[0] < 0x50 && data[0] % 16 * 4 <= Number16(data, 2) <= |data|
  }

  lemma Ipv4ByPosition(data: seq<Byte>)
    ensures match P.Parse(data)
            case Err(PacketTooShort(actual, minimum)) => actual == |data| < 20 == minimum
            case Err(InvalidVersion(version)) => |data| >= 20 && version == data[0] / 16 != 4
            case Err(InvalidIhl(ihl)) => |data| >= 20 && 0x40 <= data[0] < 0x45 && ihl == data[0] % 16
            case Err(TruncatedHeader(actual, required)) =>
              |data| >= 20 && 0x45 <= data[0] < 0x50 && actual == |data| < required == data[0] % 16 * 4
            case Err(TotalLengthTooSmall(total, length)) =>
              && |data| >= 20 && 0x45 <= data[0] < 0x50
              && total == Number16(data, 2) < length == data[0] % 16 * 4 <= |data|
            case Err(TruncatedPacket(actual, declared)) =>
              && |data| >= 20 && 0x45 <= data[0] < 0x50
              && data[0] % 16 * 4 <= actual == |data| < declared == Number16(data, 2)
            case Err(ReservedFlagSet) => Ipv4Fits(data) && data[6] >= 0x80
            case Err(InvalidChecksum) =>
              Ipv4Fits(data) && data[6] < 0x80 && !Balanced(WordSum(data[..data[0] % 16 * 4]))
            case Ok(p) =>
              && Ipv4Fits(data) && data[6] < 0x80 && Balanced(WordSum(data[..data[0] % 16 * 4]))
              && p.dscp == data[1] / 4 && p.ecn == data[1] % 4
              && p.identification == Number16(data, 4) && p.ttl == data[8]
              && (p.dontFragment <==> data[6] / 0x40 % 2 == 1) && (p.moreFragments <==> data[6] / 0x20 % 2 == 1)
              && p.fragmentOffset == Number16(data, 6) % 0x2000
              && p.source == IpAt(data, 12) && p.destination == IpAt(data, 16)
              && p.options == data[20..data[0] % 16 * 4]
              && p.payload == data[data[0] % 16 * 4..Number16(data, 2)] && p.trailingBytes == data[Number16(data, 2)..]
              && match p.protocol
                 case Icmp => data[9] == 1
                 case Tcp => data[9] == 6
                 case Udp => data[9] == 17
                 case Unknown(value) => value == data[9] && value != 1 && value != 6 && value != 17
  {
    if Ipv4Fits(data) {
      var header := data[..data[0] % 16 * 4];
      ChecksumZero(header);
      SumFromZero(header, 0);
      assert header[0] == data[0] != 0;
      FlagsByByte(data[6], data[7]);
    }
  }

  lemma FlagsByByte(hi: Byte, lo: Byte)
    ensures var w := Word(hi, lo);
            (w / 0x8000 == 0 <==> hi < 0x80) && w / 0x4000 == hi / 0x40 && w / 0x2000 == hi / 0x20
  {
  }

  lemma IcmpByPosition(data: seq<Byte>)
    ensures match I.Parse(data)
            case Err(MessageTooShort(actual, minimum)) => actual == |data| < 4 == minimum
            case Err(InvalidEchoCode(messageType, code)) =>
              && |data| >= 4 && (data[0] == 0 || data[0] == 8)
              && messageType == data[0] && code == data[1] != 0
            case Err(EchoMessageTooShort(actual, minimum)) =>
              4 <= actual == |data| < 8 == minimum && (data[0] == 0 || data[0] == 8) && data[1] == 0
            case Err(InvalidChecksum) =>
              && |data| >= 4 && (data[0] == 0 || data[0] == 8 ==> data[1] == 0 && |data| >= 8)
              && !(WordSum(data) > 0 && Balanced(WordSum(data)))
            case Ok(m) =>
              && |data| >= 4 && WordSum(data) > 0 && Balanced(WordSum(data))
              && match m
                 case EchoRequest(echo) =>
                   && |data| >= 8 && data[0] == 8 && data[1] == 0 && echo.identifier == Number16(data, 4)
                   && echo.sequenceNumber == Number16(data, 6) && echo.payload == data[8..]
                 case EchoReply(echo) =>
                   && |data| >= 8 && data[0] == 0 && data[1] == 0 && echo.identifier == Number16(data, 4)
                   && echo.sequenceNumber == Number16(data, 6) && echo.payload == data[8..]
                 case Unknown(messageType, code, body) =>
                   && data[0] != 0 && data[0] != 8
                   && messageType == data[0] && code == data[1] && body == data[4..]
  {
    ChecksumZero(data);
  }

  lemma UdpByPosition(data: seq<Byte>)
    ensures match U.Parse(data)
            case Err(DatagramTooShort(actual, minimum)) => actual == |data| < 8 == minimum
            case Err(InvalidLength(declared, minimum)) =>
              |data| >= 8 && declared == Number16(data, 4) < 8 == minimum
            case Err(TruncatedDatagram(actual, declared)) =>
              8 <= actual == |data| < declared == Number16(data, 4)
            case Err(InvalidChecksum) => false
            case Ok(d) =>
              && 8 <= Number16(data, 4) <= |data|
              && d.sourcePort == Number16(data, 0) && d.destinationPort == Number16(data, 2)
              && d.length == Number16(data, 4) && d.checksum == Number16(data, 6)
              && d.payload == data[8..Number16(data, 4)]
  {
  }

  /** A datagram is valid if it has no checksum or everything that the checksum covers balances. */
  lemma UdpValidity(source: Ipv4Addr, destination: Ipv4Addr, data: seq<Byte>)
    ensures match U.Validate(source, destination, data)
            case Err(InvalidChecksum) => U.Parse(data).Ok?
            case Err(error) => U.Parse(data) == Err(error)
            case Ok(_) => U.Parse(data).Ok?
    ensures U.Validate(source, destination, data).Ok? <==>
            && |data| >= 8 && 8 <= Number16(data, 4) <= |data|
            && (|| Number16(data, 6) == 0
                || Balanced(WordSum(source.Octets() + destination.Octets()) + 17 + Number16(data, 4)
                            + WordSum(data[..Number16(data, 4)])))
  {
    UdpByPosition(data);
    if U.Parse(data).Ok? {
      var length := U.Parse(data).value.length;
      TransportChecks(source, destination, 17, length, data[..length]);
    }
  }

  lemma TcpByPosition(data: seq<Byte>)
    ensures match T.Parse(data)
            case Err(SegmentTooShort(actual, minimum)) => actual == |data| < 20 == minimum
            case Err(InvalidDataOffset(offset, minimum)) =>
              |data| >= 20 && offset == data[12] / 16 < 5 == minimum
            case Err(TruncatedHeader(actual, required)) =>
              && |data| >= 20 && data[12] >= 0x50
              && actual == |data| < required == data[12] / 16 * 4
            case Err(_) => false
            case Ok(p) =>
              && |data| >= 20 && 20 <= data[12] / 16 * 4 <= |data|
              && p.sourcePort == Number16(data, 0) && p.destinationPort == Number16(data, 2)
              && p.sequenceNumber == Number32(data, 4) && p.acknowledgementNumber == Number32(data, 8)
              && p.dataOffset == data[12] / 16 && p.reserved == data[12] % 16 && p.flags == data[13]
              && p.windowSize == Number16(data, 14) && p.checksum == Number16(data, 16)
              && p.urgentPointer == Number16(data, 18)
              && p.options == data[20..data[12] / 16 * 4] && p.payload == data[data[12] / 16 * 4..]
  {
  }

  /** A segment is valid if it fits and everything that the checksum covers balances. */
  lemma TcpValidity(source: Ipv4Addr, destination: Ipv4Addr, data: seq<Byte>)
    ensures match T.Validate(source, destination, data)
            case Err(InvalidChecksum) => T.Parse(data).Ok? && |data| <= 0xffff
            case Err(SegmentTooLong(actual, maximum)) => T.Parse(data).Ok? && actual == |data| > 0xffff == maximum
            case Err(error) => T.Parse(data) == Err(error)
            case Ok(_) => T.Parse(data).Ok? && |data| <= 0xffff
    ensures T.Validate(source, destination, data).Ok? <==>
            && 20 <= |data| <= 0xffff && 20 <= data[12] / 16 * 4 <= |data|
            && Balanced(WordSum(source.Octets() + destination.Octets()) + 6 + |data| + WordSum(data))
  {
    TcpByPosition(data);
    if T.Parse(data).Ok? && |data| <= 0xffff {
      TransportChecks(source, destination, 6, |data|, data);
    }
  }

  /** The numbers that the writers use for the names that the parsers give. */
  lemma NamedNumbers()
    ensures E.EtherType.Ipv4.AsU16() == 0x0800 && E.EtherType.Arp.AsU16() == 0x0806
    ensures E.EtherType.Ipv6.AsU16() == 0x86dd
    ensures A.ArpOperation.Request.AsU16() == 1 && A.ArpOperation.Reply.AsU16() == 2
    ensures P.Ipv4Protocol.Icmp.AsU8() == 1 && P.Ipv4Protocol.Tcp.AsU8() == 6 && P.Ipv4Protocol.Udp.AsU8() == 17
  {
  }

  /** What the writers refuse, with the first reason that applies. */
  lemma Ipv4Refusals(p: P.Ipv4Packet, available: nat)
    ensures var length, total := 20 + |p.options|, 20 + |p.options| + |p.payload|;
            match P.Serialise(p, available)
            case Err(OptionsTooLong(actual, maximum)) => actual == |p.options| > 40 == maximum
            case Err(OptionsNotMultipleOfFour(actual)) => actual == |p.options| <= 40 && actual % 4 != 0
            case Err(DscpOutOfRange(value)) => length <= 60 && length % 4 == 0 && value == p.dscp > 63
            case Err(EcnOutOfRange(value)) =>
              length <= 60 && length % 4 == 0 && p.dscp <= 63 && value == p.ecn > 3
            case Err(FragmentOffsetOutOfRange(offset)) =>
              && length <= 60 && length % 4 == 0 && p.dscp <= 63 && p.ecn <= 3
              && offset == p.fragmentOffset > 0x1fff
            case Err(TotalLengthTooLarge(actual, maximum)) =>
              && length <= 60 && length % 4 == 0 && p.dscp <= 63 && p.ecn <= 3 && p.fragmentOffset <= 0x1fff
              && actual == total > 0xffff == maximum
            case Err(BufferTooSmall(actual, required)) =>
              && length <= 60 && length % 4 == 0 && p.dscp <= 63 && p.ecn <= 3 && p.fragmentOffset <= 0x1fff
              && actual == available < required == total <= 0xffff
            case Ok(bytes) =>
              && length <= 60 && length % 4 == 0 && p.dscp <= 63 && p.ecn <= 3 && p.fragmentOffset <= 0x1fff
              && |bytes| == total <= 0xffff && total <= available
  {
  }

  lemma TcpRefusals(p: T.TcpSegmentToSend, source: Ipv4Addr, destination: Ipv4Addr, available: nat)
    ensures var total := 20 + |p.options| + |p.payload|;
            match T.Serialise(p, source, destination, available)
            case Err(OptionsTooLong(actual, maximum)) => actual == |p.options| > 40 == maximum
            case Err(OptionsNotMultipleOfFour(actual)) => actual == |p.options| <= 40 && actual % 4 != 0
            case Err(SegmentTooLong(actual, maximum)) =>
              |p.options| <= 40 && |p.options| % 4 == 0 && actual == total > 0xffff == maximum
            case Err(BufferTooSmall(actual, required)) =>
              |p.options| <= 40 && |p.options| % 4 == 0 && actual == available < required == total <= 0xffff
            case Ok(bytes) =>
              |p.options| <= 40 && |p.options| % 4 == 0 && |bytes| == total <= 0xffff && total <= available
  {
  }

  lemma UdpRefusals(source: Ipv4Addr, destination: Ipv4Addr, sourcePort: U16, destinationPort: U16,
                    payload: seq<Byte>, available: nat)
    ensures match U.Serialise(source, destination, sourcePort, destinationPort, payload, available)
            case Err(DatagramTooLong(actual, maximum)) => actual == 8 + |payload| > 0xffff == maximum
            case Err(BufferTooSmall(actual, required)) => actual == available < required == 8 + |payload| <= 0xffff
            case Ok(bytes) => |bytes| == 8 + |payload| <= 0xffff && |bytes| <= available
  {
  }

  lemma FixedRefusals(f: E.EthernetFrame, p: A.ArpPacket, m: I.IcmpMessage, available: nat)
    ensures match E.Serialise(f, available)
            case Err(BufferTooSmall(actual, required)) => actual == available < required == 14 + |f.payload|
            case Ok(bytes) => |bytes| == 14 + |f.payload| <= available
    ensures match A.Serialise(p, available)
            case Err(BufferTooSmall(actual, required)) => actual == available < required == 28
            case Ok(bytes) => |bytes| == 28 <= available
    ensures var length := if m.Unknown? then 4 + |m.body| else 8 + |m.echo.payload|;
            match I.Serialise(m, available)
            case Err(BufferTooSmall(actual, required)) => actual == available < required == length
            case Ok(bytes) => |bytes| == length <= available
  {
  }

  /** The two wrapping additions drop the multiples of 2^16 and 2^32. */
  lemma WrapAround(x: U16, y: U32, n: nat)
    ensures WrappingAdd16(x, n) + (x + n) / 0x1_0000 * 0x1_0000 == x + n
    ensures WrappingAdd32(y, n) + (y + n) / 0x1_0000_0000 * 0x1_0000_0000 == y + n
  {
  }
}
