/** ARP packets for IPv4 over Ethernet: fixed-layout copy, parser, and the reply and request rules. */
module Arp {
  import opened NetTypes

  const ARP_HEADER_LEN := 28
  const HARDWARE_ETHERNET: U16 := 1
  const PROTOCOL_IPV4: U16 := 0x0800

  datatype ArpOperation = Request | Reply | Unknown(value: U16) {
    function AsU16(): U16 {
      match this
      case Request => 1
      case Reply => 2
      case Unknown(value) => value
    }
  }

  function OperationFrom(value: U16): ArpOperation {
    if value == 1 then Request else if value == 2 then Reply else Unknown(value)
  }

  /** The hardware and protocol types of the source have one value each and need no field. */
  datatype ArpPacket = ArpPacket(
    hardwareSize: Byte,
    protocolSize: Byte,
    operation: ArpOperation,
    senderMac: MacAddress,
    senderIp: Ipv4Addr,
    targetMac: MacAddress,
    targetIp: Ipv4Addr,
    trailingBytes: seq<Byte>)

  datatype ArpParseError =
    | PacketTooShort(actual: nat, minimum: nat)
    | UnsupportedHardwareType(hardwareType: U16)
    | UnsupportedProtocolType(protocolType: U16)
    | InvalidHardwareAddressLength(length: Byte)
    | InvalidProtocolAddressLength(length: Byte)

  function Types(p: ArpPacket): (s: seq<Byte>)
    ensures |s| == 8
  {
    Be16(HARDWARE_ETHERNET) + Be16(PROTOCOL_IPV4) + [p.hardwareSize, p.protocolSize] + Be16(p.operation.AsU16())
  }

  function Packet(p: ArpPacket): (s: seq<Byte>)
    ensures |s| == ARP_HEADER_LEN
  {
    Types(p) + p.senderMac.Octets() + p.senderIp.Octets() + p.targetMac.Octets() + p.targetIp.Octets()
  }

  function Serialise(p: ArpPacket, available: nat): (r: Result<seq<Byte>, SerialiseError>)
    ensures r.Ok? <==> ARP_HEADER_LEN <= available
  {
    if available < ARP_HEADER_LEN then Err(BufferTooSmall(available, ARP_HEADER_LEN)) else Ok(Packet(p))
  }

  method WriteTo(p: ArpPacket, output: array<Byte>) returns (r: Result<nat, SerialiseError>)
    modifies output
    ensures match Serialise(p, output.Length)
            case Ok(bytes) =>
              && r == Ok(|bytes|) && output[..|bytes|] == bytes
              && forall k | |bytes| <= k < output.Length :: output[k] == old(output[k])
            case Err(error) => r == Err(error) && output[..] == old(output[..])
  {
    if output.Length < ARP_HEADER_LEN {
      return Err(BufferTooSmall(output.Length, ARP_HEADER_LEN));
    }
    CopyFromSlice(output, 0, Be16(HARDWARE_ETHERNET));
    CopyFromSlice(output, 2, Be16(PROTOCOL_IPV4));
    CopyFromSlice(output, 4, [p.hardwareSize, p.protocolSize]);
    CopyFromSlice(output, 6, Be16(p.operation.AsU16()));
    CopyFromSlice(output, 8, p.senderMac.Octets());
    CopyFromSlice(output, 14, p.senderIp.Octets());
    CopyFromSlice(output, 18, p.targetMac.Octets());
    CopyFromSlice(output, 24, p.targetIp.Octets());
    r := Ok(ARP_HEADER_LEN);
  }

  function Parse(data: seq<Byte>): Result<ArpPacket, ArpParseError> {
    if |data| < ARP_HEADER_LEN then Err(PacketTooShort(|data|, ARP_HEADER_LEN))
    else if Word(data[0], data[1]) != HARDWARE_ETHERNET then Err(UnsupportedHardwareType(Word(data[0], data[1])))
    else if Word(data[2], data[3]) != PROTOCOL_IPV4 then Err(UnsupportedProtocolType(Word(data[2], data[3])))
    else if data[4] != 6 then Err(InvalidHardwareAddressLength(data[4]))
    else if data[5] != 4 then Err(InvalidProtocolAddressLength(data[5]))
    else Ok(ArpPacket(
      data[4],
      data[5],
      OperationFrom(Word(data[6], data[7])),
      MacAddress(data[8], data[9], data[10], data[11], data[12], data[13]),
      Ipv4Addr(data[14], data[15], data[16], data[17]),
      MacAddress(data[18], data[19], data[20], data[21], data[22], data[23]),
      Ipv4Addr(data[24], data[25], data[26], data[27]),
      data[ARP_HEADER_LEN..]))
  }

  function BuildReply(request: ArpPacket, localMac: MacAddress, localIp: Ipv4Addr): Option<ArpPacket> {
    if request.operation != Request || request.targetIp != localIp then None
    else Some(ArpPacket(6, 4, Reply, localMac, localIp, request.senderMac, request.senderIp, []))
  }

  function BuildRequest(targetIp: Ipv4Addr, sourceMac: MacAddress, sourceIp: Ipv4Addr): ArpPacket {
    ArpPacket(6, 4, Request, sourceMac, sourceIp, MacAddress(0, 0, 0, 0, 0, 0), targetIp, [])
  }

  lemma ParseAfterSerialise(p: ArpPacket)
    requires p.hardwareSize == 6 && p.protocolSize == 4
    ensures Parse(Packet(p)) == Ok(p.(operation := OperationFrom(p.operation.AsU16()), trailingBytes := []))
  {
    var data := Packet(p);
    var types := Types(p);
    assert data[ARP_HEADER_LEN..] == [];
    assert forall i | 0 <= i < 8 :: data[i] == types[i];
    assert MacAddress(data[8], data[9], data[10], data[11], data[12], data[13]) == p.senderMac;
    assert Ipv4Addr(data[14], data[15], data[16], data[17]) == p.senderIp;
    assert MacAddress(data[18], data[19], data[20], data[21], data[22], data[23]) == p.targetMac;
    assert Ipv4Addr(data[24], data[25], data[26], data[27]) == p.targetIp;
  }
}
