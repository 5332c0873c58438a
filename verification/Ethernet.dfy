/** Ethernet frames: fixed header copy and its parser. */
module Ethernet {
  import opened NetTypes

  const ETHERNET_HEADER_LEN := 14

  datatype EtherType = Ipv4 | Arp | Ipv6 | Unknown(value: U16) {
    function AsU16(): U16 {
      match this
      case Ipv4 => 0x0800
      case Arp => 0x0806
      case Ipv6 => 0x86dd
      case Unknown(value) => value
    }
  }

  function EtherTypeFrom(value: U16): EtherType {
    if value == 0x0800 then Ipv4
    else if value == 0x0806 then Arp
    else if value == 0x86dd then Ipv6
    else Unknown(value)
  }

  datatype EthernetFrame = EthernetFrame(destinationMac: MacAddress, sourceMac: MacAddress, etherType: EtherType,
      payload: seq<Byte>) {
    function Required(): nat {
      ETHERNET_HEADER_LEN + |payload|
    }
  }

  datatype EthernetParseError = FrameTooShort(actual: nat, minimum: nat)

  function Frame(f: EthernetFrame): (s: seq<Byte>)
    ensures |s| == f.Required()
  {
    f.destinationMac.Octets() + f.sourceMac.Octets() + Be16(f.etherType.AsU16()) + f.payload
  }

  function Serialise(f: EthernetFrame, available: nat): (r: Result<seq<Byte>, SerialiseError>)
    ensures r.Ok? <==> f.Required() <= available
  {
    if available < f.Required() then Err(BufferTooSmall(available, f.Required())) else Ok(Frame(f))
  }

  method WriteTo(f: EthernetFrame, output: array<Byte>) returns (r: Result<nat, SerialiseError>)
    modifies output
    ensures match Serialise(f, output.Length)
            case Ok(bytes) =>
              && r == Ok(|bytes|) && output[..|bytes|] == bytes
              && forall k | |bytes| <= k < output.Length :: output[k] == old(output[k])
            case Err(error) => r == Err(error) && output[..] == old(output[..])
  {
    var required := ETHERNET_HEADER_LEN + |f.payload|;
    if output.Length < required {
      return Err(BufferTooSmall(output.Length, required));
    }
    CopyFromSlice(output, 0, f.destinationMac.Octets());
    CopyFromSlice(output, 6, f.sourceMac.Octets());
    CopyFromSlice(output, 12, Be16(f.etherType.AsU16()));
    CopyFromSlice(output, ETHERNET_HEADER_LEN, f.payload);
    r := Ok(required);
  }

  function Parse(data: seq<Byte>): Result<EthernetFrame, EthernetParseError> {
    if |data| < ETHERNET_HEADER_LEN then Err(FrameTooShort(|data|, ETHERNET_HEADER_LEN))
    else Ok(EthernetFrame(
      MacAddress(data[0], data[1], data[2], data[3], data[4], data[5]),
      MacAddress(data[6], data[7], data[8], data[9], data[10], data[11]),
      EtherTypeFrom(Word(data[12], data[13])),
      data[ETHERNET_HEADER_LEN..]))
  }

  lemma ParseAfterSerialise(f: EthernetFrame)
    ensures Parse(Frame(f)) == Ok(f.(etherType := EtherTypeFrom(f.etherType.AsU16())))
  {
    var data := Frame(f);
    assert data[..6] == f.destinationMac.Octets() && data[6..12] == f.sourceMac.Octets();
    assert data[12..14] == Be16(f.etherType.AsU16());
    assert data[ETHERNET_HEADER_LEN..] == f.payload;
  }
}
