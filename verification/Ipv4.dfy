/** IPv4 packets (section 3.1 of RFC 791): in-place serialiser, parser, and their agreement. */
module Ipv4 {
  import opened NetTypes
  import opened Checksum

  const IPV4_MIN_HEADER_LEN := 20
  const CHECKSUM_AT := 10

  datatype Ipv4Protocol = Icmp | Tcp | Udp | Unknown(value: Byte) {
    function AsU8(): Byte {
      match this
      case Icmp => 1
      case Tcp => 6
      case Udp => 17
      case Unknown(value) => value
    }
  }

  function ProtocolFrom(value: Byte): Ipv4Protocol {
    if value == 1 then Icmp else if value == 6 then Tcp else if value == 17 then Udp else Unknown(value)
  }

  datatype Ipv4Packet = Ipv4Packet(
    dscp: Byte,
    ecn: Byte,
    identification: U16,
    ttl: Byte,
    protocol: Ipv4Protocol,
    dontFragment: bool,
    moreFragments: bool,
    fragmentOffset: U16,
    source: Ipv4Addr,
    destination: Ipv4Addr,
    options: seq<Byte>,
    payload: seq<Byte>,
    trailingBytes: seq<Byte>)
  {
    function HeaderLength(): nat {
      IPV4_MIN_HEADER_LEN + |options|
    }

    function TotalLength(): nat {
      HeaderLength() + |payload|
    }

    /** The ranges that the wire format can represent. */
    predicate Representable() {
      |options| <= 40 && |options| % 4 == 0 && dscp <= 63 && ecn <= 3 && fragmentOffset <= 0x1fff
      && TotalLength() <= 0xffff
    }

    /** The packet as a receiver sees it: known protocol numbers are named. */
    function Normalised(trailing: seq<Byte>): Ipv4Packet {
      this.(protocol := ProtocolFrom(protocol.AsU8()), trailingBytes := trailing)
    }
  }

  datatype Ipv4SerialiseError =
    | BufferTooSmall(actual: nat, required: nat)
    | TotalLengthTooLarge(actual: nat, maximum: nat)
    | OptionsNotMultipleOfFour(actual: nat)
    | OptionsTooLong(actual: nat, maximum: nat)
    | FragmentOffsetOutOfRange(offset: U16)
    | DscpOutOfRange(value: Byte)
    | EcnOutOfRange(value: Byte)

  datatype Ipv4ParseError =
    | PacketTooShort(actual: nat, minimum: nat)
    | InvalidVersion(version: Byte)
    | InvalidIhl(ihl: Byte)
    | TruncatedHeader(actual: nat, required: nat)
    | TotalLengthTooSmall(totalLength: nat, headerLength: nat)
    | TruncatedPacket(actual: nat, declared: nat)
    | InvalidChecksum
    | ReservedFlagSet

  function Bit(b: bool): nat {
    if b then 1 else 0
  }

  function FlagsAndOffset(p: Ipv4Packet): U16
    requires p.fragmentOffset <= 0x1fff
  {
    Bit(p.dontFragment) * 0x4000 + Bit(p.moreFragments) * 0x2000 + p.fragmentOffset
  }

  /** The ten header bytes before the checksum field, from their numbers. */
  function FrontBytes(first: Byte, second: Byte, total: U16, identification: U16, flags: U16, ttl: Byte,
      protocol: Byte): (s: seq<Byte>)
    ensures |s| == CHECKSUM_AT
  {
    [first, second] + Be16(total) + Be16(identification) + Be16(flags) + [ttl, protocol]
  }

  function Front(p: Ipv4Packet): (s: seq<Byte>)
    requires p.Representable()
    ensures |s| == CHECKSUM_AT
  {
    FrontBytes(0x40 + p.HeaderLength() / 4, p.dscp * 4 + p.ecn, p.TotalLength(), p.identification, FlagsAndOffset(p),
               p.ttl, p.protocol.AsU8())
  }

  /** The header bytes behind the checksum field. */
  function Back(p: Ipv4Packet): seq<Byte> {
    p.source.Octets() + p.destination.Octets() + p.options
  }

  function Header(p: Ipv4Packet, checksum: seq<Byte>): seq<Byte>
    requires p.Representable()
  {
    Front(p) + checksum + Back(p)
  }

  function HeaderChecksum(p: Ipv4Packet): U16
    requires p.Representable()
  {
    InternetChecksum(Header(p, UNSET))
  }

  /** The outcome of serialising into a buffer of `available` bytes: the bytes written, or the error. */
  function Serialise(p: Ipv4Packet, available: nat): (r: Result<seq<Byte>, Ipv4SerialiseError>)
    ensures r.Ok? ==> p.Representable() && |r.value| == p.TotalLength() <= available
    ensures p.Representable() && p.TotalLength() <= available ==> r.Ok?
  {
    if |p.options| > 40 then Err(OptionsTooLong(|p.options|, 40))
    else if |p.options| % 4 != 0 then Err(OptionsNotMultipleOfFour(|p.options|))
    else if p.dscp > 63 then Err(DscpOutOfRange(p.dscp))
    else if p.ecn > 3 then Err(EcnOutOfRange(p.ecn))
    else if p.fragmentOffset > 0x1fff then Err(FragmentOffsetOutOfRange(p.fragmentOffset))
    else if p.TotalLength() > 0xffff then Err(TotalLengthTooLarge(p.TotalLength(), 0xffff))
    else if available < p.TotalLength() then Err(Ipv4SerialiseError.BufferTooSmall(available, p.TotalLength()))
    else Ok(Header(p, Be16(HeaderChecksum(p))) + p.payload)
  }

  method WriteFront(output: array<Byte>, first: Byte, second: Byte, total: U16, identification: U16, flags: U16,
                    ttl: Byte, protocol: Byte)
    requires CHECKSUM_AT <= output.Length
    modifies output
    ensures output[..CHECKSUM_AT] == FrontBytes(first, second, total, identification, flags, ttl, protocol)
    ensures forall k | CHECKSUM_AT <= k < output.Length :: output[k] == old(output[k])
  {
    CopyFromSlice(output, 0, [first, second]);
    CopyFromSlice(output, 2, Be16(total));
    CopyFromSlice(output, 4, Be16(identification));
    CopyFromSlice(output, 6, Be16(flags));
    CopyFromSlice(output, 8, [ttl, protocol]);
  }

  /** The field by field copying of the header, with the checksum still zero. */
  method WriteZeroedHeader(p: Ipv4Packet, output: array<Byte>)
    requires p.Representable() && p.TotalLength() <= output.Length
    modifies output
    ensures output[..p.HeaderLength()] == Header(p, UNSET)
    ensures forall k | p.HeaderLength() <= k < output.Length :: output[k] == old(output[k])
  {
    WriteFront(output, 0x40 + p.HeaderLength() / 4, p.dscp * 4 + p.ecn, p.TotalLength(), p.identification,
               FlagsAndOffset(p), p.ttl, p.protocol.AsU8());
    CopyFromSlice(output, CHECKSUM_AT, UNSET);
    CopyFromSlice(output, 12, p.source.Octets());
    CopyFromSlice(output, 16, p.destination.Octets());
    CopyFromSlice(output, IPV4_MIN_HEADER_LEN, p.options);
    Regroup(Front(p) + UNSET, p.source.Octets(), p.destination.Octets(), p.options);
  }

  method WriteTo(p: Ipv4Packet, output: array<Byte>) returns (r: Result<nat, Ipv4SerialiseError>)
    modifies output
    ensures match Serialise(p, output.Length)
            case Ok(bytes) =>
              && r == Ok(|bytes|) && output[..|bytes|] == bytes
              && forall k | |bytes| <= k < output.Length :: output[k] == old(output[k])
            case Err(error) => r == Err(error) && output[..] == old(output[..])
  {
    if |p.options| > 40 {
      return Err(OptionsTooLong(|p.options|, 40));
    }
    if |p.options| % 4 != 0 {
      return Err(OptionsNotMultipleOfFour(|p.options|));
    }
    if p.dscp > 63 {
      return Err(DscpOutOfRange(p.dscp));
    }
    if p.ecn > 3 {
      return Err(EcnOutOfRange(p.ecn));
    }
    if p.fragmentOffset > 0x1fff {
      return Err(FragmentOffsetOutOfRange(p.fragmentOffset));
    }
    var headerLength := IPV4_MIN_HEADER_LEN + |p.options|;
    if |p.payload| > 0xffff - headerLength {
      return Err(TotalLengthTooLarge(headerLength + |p.payload|, 0xffff));
    }
    var totalLength := headerLength + |p.payload|;
    if output.Length < totalLength {
      return Err(Ipv4SerialiseError.BufferTooSmall(output.Length, totalLength));
    }

    WriteZeroedHeader(p, output);
    var checksum, _ := ComputeChecksum(output[..headerLength]);
    PatchField(output, headerLength, CHECKSUM_AT, Be16(checksum), Front(p), UNSET, Back(p));
    CopyFromSlice(output, headerLength, p.payload);
    r := Ok(totalLength);
  }

  function Parse(data: seq<Byte>): Result<Ipv4Packet, Ipv4ParseError> {
    if |data| < IPV4_MIN_HEADER_LEN then Err(PacketTooShort(|data|, IPV4_MIN_HEADER_LEN))
    else
      var version := data[0] / 16;
      var ihl := data[0] % 16;
      if version != 4 then Err(InvalidVersion(version))
      else if ihl < 5 then Err(InvalidIhl(ihl))
      else
        var headerLength := ihl * 4;
        var totalLength := Word(data[2], data[3]);
        if |data| < headerLength then Err(TruncatedHeader(|data|, headerLength))
        else if totalLength < headerLength then Err(TotalLengthTooSmall(totalLength, headerLength))
        else if |data| < totalLength then Err(TruncatedPacket(|data|, totalLength))
        else
          var flags := Word(data[6], data[7]);
          if flags / 0x8000 != 0 then Err(ReservedFlagSet)
          else if InternetChecksum(data[..headerLength]) != 0 then Err(InvalidChecksum)
          else Ok(Ipv4Packet(
            data[1] / 4,
            data[1] % 4,
            Word(data[4], data[5]),
            data[8],
            ProtocolFrom(data[9]),
            flags / 0x4000 % 2 == 1,
            flags / 0x2000 % 2 == 1,
            flags % 0x2000,
            Ipv4Addr(data[12], data[13], data[14], data[15]),
            Ipv4Addr(data[16], data[17], data[18], data[19]),
            data[IPV4_MIN_HEADER_LEN..headerLength],
            data[headerLength..totalLength],
            data[totalLength..]))
  }

  lemma FlagsDecode(p: Ipv4Packet)
    requires p.fragmentOffset <= 0x1fff
    ensures var w := FlagsAndOffset(p);
            && w / 0x8000 == 0 && (w / 0x4000 % 2 == 1 <==> p.dontFragment)
            && (w / 0x2000 % 2 == 1 <==> p.moreFragments) && w % 0x2000 == p.fragmentOffset
  {
  }

  lemma FrontDecodes(p: Ipv4Packet)
    requires p.Representable()
    ensures var f := Front(p);
            && f[0] / 16 == 4 && f[0] % 16 * 4 == p.HeaderLength()
            && f[1] / 4 == p.dscp && f[1] % 4 == p.ecn
            && Word(f[2], f[3]) == p.TotalLength() && Word(f[4], f[5]) == p.identification
            && Word(f[6], f[7]) == FlagsAndOffset(p)
            && f[8] == p.ttl && f[9] == p.protocol.AsU8()
  {
  }

  lemma BackDecodes(p: Ipv4Packet)
    ensures var b := Back(p);
            && |b| == p.HeaderLength() - 12
            && Ipv4Addr(b[0], b[1], b[2], b[3]) == p.source
            && Ipv4Addr(b[4], b[5], b[6], b[7]) == p.destination
            && b[8..] == p.options
  {
  }

  /** Written packets parse back, also from a buffer that is longer than the packet. */
  lemma ParseAfterSerialise(p: Ipv4Packet, available: nat, trailing: seq<Byte>)
    requires Serialise(p, available).Ok?
    ensures Parse(Serialise(p, available).value + trailing) == Ok(p.Normalised(trailing))
  {
    var c := HeaderChecksum(p);
    var length := p.HeaderLength();
    var front, back := Front(p), Back(p);
    var data := front + Be16(c) + back + p.payload + trailing;
    FillBetween(front, back);
    FrontDecodes(p);
    FlagsDecode(p);
    BackDecodes(p);
    assert data[..length] == Header(p, Be16(c));
    assert forall i | 0 <= i < 10 :: data[i] == front[i];
    assert forall i | 12 <= i < length :: data[i] == back[i - 12];
    assert data[IPV4_MIN_HEADER_LEN..length] == back[8..];
    assert data[length..p.TotalLength()] == p.payload;
    assert data[p.TotalLength()..] == trailing;
  }

  lemma FlagsEncode(w: U16)
    requires w / 0x8000 == 0
    ensures Bit(w / 0x4000 % 2 == 1) * 0x4000 + Bit(w / 0x2000 % 2 == 1) * 0x2000 + w % 0x2000 == w
  {
  }

  lemma FirstByteEncodes(b: Byte)
    requires b / 16 == 4
    ensures 0x40 + (b % 16 * 4) / 4 == b
  {
  }

  lemma SecondByteEncodes(b: Byte)
    ensures b / 4 <= 63 && b % 4 <= 3 && b / 4 * 4 + b % 4 == b
  {
  }

  /** The lengths of an accepted packet, and that it is within the wire ranges. */
  lemma ParsedLengths(data: seq<Byte>)
    requires Parse(data).Ok?
    ensures var p := Parse(data).value;
            && p.Representable()
            && p.HeaderLength() == data[0] % 16 * 4 && data[0] / 16 == 4
            && p.TotalLength() == Word(data[2], data[3])
  {
    var p := Parse(data).value;
    var ihl := data[0] % 16;
    SecondByteEncodes(data[1]);
    OptionsFit(ihl);
    assert |p.options| == ihl * 4 - 20;
    assert |p.payload| == Word(data[2], data[3]) - ihl * 4;
    assert p.fragmentOffset == Word(data[6], data[7]) % 0x2000;
  }

  lemma OptionsFit(ihl: nat)
    requires 5 <= ihl <= 15
    ensures (ihl * 4 - 20) % 4 == 0 && ihl * 4 - 20 <= 40
  {
  }

  lemma ParsedFields(data: seq<Byte>)
    requires Parse(data).Ok?
    ensures var p := Parse(data).value;
            && p.Representable()
            && 0x40 + p.HeaderLength() / 4 == data[0]
            && p.dscp * 4 + p.ecn == data[1]
            && p.TotalLength() == Word(data[2], data[3]) && p.identification == Word(data[4], data[5])
            && FlagsAndOffset(p) == Word(data[6], data[7])
            && p.ttl == data[8] && p.protocol.AsU8() == data[9]
  {
    ParsedLengths(data);
    FirstByteEncodes(data[0]);
    SecondByteEncodes(data[1]);
    FlagsEncode(Word(data[6], data[7]));
  }

  lemma RefilledHeader(header: seq<Byte>, p: Ipv4Packet)
    requires p.Representable() && |header| == p.HeaderLength() && InternetChecksum(header) == 0
    requires Front(p) == header[..CHECKSUM_AT] && Back(p) == header[CHECKSUM_AT + 2..]
    ensures HeaderChecksum(p) == Canonical(Word(header[10], header[11]))
  {
    var w := Word(header[10], header[11]);
    assert Front(p) + Be16(w) + Back(p) == header;
    RefillBetween(Front(p), w, Back(p));
    SumFromZero(Header(p, UNSET), 0);
    assert Header(p, UNSET)[0] == Front(p)[0] != 0;
  }

  lemma FrontBytesUnique(data: seq<Byte>)
    requires |data| >= CHECKSUM_AT
    ensures FrontBytes(data[0], data[1], Word(data[2], data[3]), Word(data[4], data[5]), Word(data[6], data[7]),
                       data[8], data[9])
            == data[..CHECKSUM_AT]
  {
    Be16Unique(data[2], data[3]);
    Be16Unique(data[4], data[5]);
    Be16Unique(data[6], data[7]);
  }

  lemma FrontOfParsed(data: seq<Byte>)
    requires Parse(data).Ok?
    ensures Parse(data).value.Representable() && Front(Parse(data).value) == data[..CHECKSUM_AT]
  {
    ParsedFields(data);
    FrontBytesUnique(data);
  }

  lemma BackOfParsed(data: seq<Byte>)
    requires Parse(data).Ok?
    ensures var p := Parse(data).value; p.HeaderLength() <= |data| && Back(p) == data[12..p.HeaderLength()]
  {
  }

  /** Replacing the checksum field of the first `total` bytes, piece by piece. */
  lemma Splice(data: seq<Byte>, field: seq<Byte>, k: nat, total: nat)
    requires 12 <= k <= total <= |data| && |field| == 2
    ensures data[..10] + field + data[12..k] + data[k..total] == WithField(data[..total], CHECKSUM_AT, field)
  {
  }

  /**
   Accepted packets serialise to the bytes they came from. Only the checksum field can differ:
   0xffff, the second zero of ones' complement, comes back as 0x0000.
   */
  lemma SerialiseAfterParse(data: seq<Byte>, available: nat)
    requires Parse(data).Ok? && Word(data[2], data[3]) <= available
    ensures var total := Word(data[2], data[3]);
            20 <= total <= |data|
            && Serialise(Parse(data).value, available)
               == Ok(WithField(data[..total], CHECKSUM_AT, Be16(Canonical(Word(data[10], data[11])))))
  {
    var p := Parse(data).value;
    ParsedFields(data);
    FrontOfParsed(data);
    BackOfParsed(data);
    Splice(data, Be16(HeaderChecksum(p)), p.HeaderLength(), p.TotalLength());
    RefilledHeader(data[..p.HeaderLength()], p);
  }

  /** No single-byte change to an accepted header that keeps its IHL is accepted. */
  lemma HeaderByteChangeRejected(data: seq<Byte>, i: nat, v: Byte)
    requires Parse(data).Ok? && i < Parse(data).value.HeaderLength()
    requires i < |data| && v != data[i] && (i == 0 ==> v % 16 == data[0] % 16)
    ensures Parse(data[i := v]).Err?
  {
    var length := Parse(data).value.HeaderLength();
    if i > 0 {
      SingleByteChangeDetected(data[..length], i, v);
      assert data[..length][i := v] == data[i := v][..length];
    }
  }

  /** Other bytes than those that checked, with another first byte: whether they check as well. */
  lemma FirstByteChange(s: seq<Byte>, t: seq<Byte>, v: Byte)
    requires InternetChecksum(s) == 0 && t != [] && v != 0
    ensures InternetChecksum(t[0 := v]) == 0 <==> (WordSum(t) - WordSum(s) + (v - t[0]) * 0x100) % MODULUS == 0
  {
    SumFromUpdate(t, 0, v, 0);
    ChecksumZero(s);
    ChecksumZero(t[0 := v]);
    SumFromZero(t[0 := v], 0);
    assert t[0 := v][0] == v != 0;
    MultipleAfterChange(WordSum(s), WordSum(t[0 := v]));
  }

  /**
   A changed IHL changes which bytes the header is. It is accepted exactly if the new length is possible and the
   bytes that the header gains or loses make up for the changed byte.
   */
  lemma HeaderLengthChange(data: seq<Byte>, v: Byte)
    requires Parse(data).Ok?
    ensures |data| >= IPV4_MIN_HEADER_LEN
    ensures var length, length' := data[0] % 16 * 4, v % 16 * 4;
            Parse(data[0 := v]).Ok?
            <==> && v / 16 == 4 && IPV4_MIN_HEADER_LEN <= length' <= Word(data[2], data[3])
                 && (WordSum(data[..length']) - WordSum(data[..length]) + (v - data[0]) * 0x100) % MODULUS == 0
  {
    var length, length' := data[0] % 16 * 4, v % 16 * 4;
    var changed := data[0 := v];
    if v / 16 == 4 && IPV4_MIN_HEADER_LEN <= length' <= Word(data[2], data[3]) {
      assert changed[..length'] == data[..length'][0 := v];
      FirstByteChange(data[..length], data[..length'], v);
    }
  }

  /** Such a change exists: with these first payload bytes a packet without options still parses as one with four. */
  lemma HeaderLengthChangeAccepted(p: Ipv4Packet, available: nat)
    requires Serialise(p, available).Ok? && p.options == []
    requires |p.payload| >= 4 && p.payload[..4] == [0xfe, 0xff, 0, 0]
    ensures var data := Serialise(p, available).value; Parse(data).Ok? && data[0] == 0x45 && Parse(data[0 := 0x46]).Ok?
  {
    var data := Serialise(p, available).value;
    assert data + [] == data;
    ParseAfterSerialise(p, available, []);
    FrontDecodes(p);
    assert data[20..24] == p.payload[..4];
    WordSumExtends(data[..20], data[20..24]);
    assert data[..20] + data[20..24] == data[..24];
    HeaderLengthChange(data, 0x46);
  }

  /** Four more bytes at an even offset add two words. */
  lemma WordSumExtends(s: seq<Byte>, t: seq<Byte>)
    requires |s| % 2 == 0 && |t| == 4
    ensures WordSum(s + t) == WordSum(s) + Word(t[0], t[1]) + Word(t[2], t[3])
  {
    SumFromAppend(s, t, 0);
    assert SumFrom(t, 2) == Word(t[2], t[3]) + SumFrom(t, 4);
  }
}
