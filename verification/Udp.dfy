/** UDP datagrams (RFC 768): in-place serialiser, parser, checksum test and the zero rule. */
module Udp {
  import opened NetTypes
  import opened Checksum

  const UDP_HEADER_LEN := 8
  const UDP_PROTOCOL_NUMBER: Byte := 17
  const CHECKSUM_AT := 6

  datatype UdpDatagram = UdpDatagram(sourcePort: U16, destinationPort: U16, length: U16, checksum: U16,
      payload: seq<Byte>)

  datatype UdpParseError =
    | DatagramTooShort(actual: nat, minimum: nat)
    | InvalidLength(declared: nat, minimum: nat)
    | TruncatedDatagram(actual: nat, declared: nat)
    | InvalidChecksum

  datatype UdpSerialiseError =
    | BufferTooSmall(actual: nat, required: nat)
    | DatagramTooLong(actual: nat, maximum: nat)

  function Front(sourcePort: U16, destinationPort: U16, length: U16): (s: seq<Byte>)
    ensures |s| == CHECKSUM_AT
  {
    Be16(sourcePort) + Be16(destinationPort) + Be16(length)
  }

  function Datagram(sourcePort: U16, destinationPort: U16, payload: seq<Byte>, checksum: seq<Byte>): seq<Byte>
    requires UDP_HEADER_LEN + |payload| <= 0xffff
  {
    Front(sourcePort, destinationPort, UDP_HEADER_LEN + |payload|) + checksum + payload
  }

  function DatagramChecksum(source: Ipv4Addr, destination: Ipv4Addr, sourcePort: U16, destinationPort: U16,
      payload: seq<Byte>): U16
    requires UDP_HEADER_LEN + |payload| <= 0xffff
  {
    TransportChecksum(source, destination, UDP_PROTOCOL_NUMBER, UDP_HEADER_LEN + |payload|,
                      Datagram(sourcePort, destinationPort, payload, UNSET))
  }

  /** Zero on the wire means that there is no checksum, so a computed zero is sent as all ones. */
  function Transmitted(calculated: U16): U16 {
    if calculated == 0 then 0xffff else calculated
  }

  /** The outcome of serialising into a buffer of `available` bytes. */
  function Serialise(source: Ipv4Addr, destination: Ipv4Addr, sourcePort: U16, destinationPort: U16,
                     payload: seq<Byte>, available: nat)
    : (r: Result<seq<Byte>, UdpSerialiseError>)
    ensures r.Ok? ==> |r.value| == UDP_HEADER_LEN + |payload| <= 0xffff
    ensures r.Ok? <==> UDP_HEADER_LEN + |payload| <= 0xffff && UDP_HEADER_LEN + |payload| <= available
  {
    var required := UDP_HEADER_LEN + |payload|;
    if required > 0xffff then Err(DatagramTooLong(required, 0xffff))
    else if available < required then Err(UdpSerialiseError.BufferTooSmall(available, required))
    else
      var c := Transmitted(DatagramChecksum(source, destination, sourcePort, destinationPort, payload));
      Ok(Datagram(sourcePort, destinationPort, payload, Be16(c)))
  }

  method WriteZeroedDatagram(sourcePort: U16, destinationPort: U16, payload: seq<Byte>, output: array<Byte>)
    requires UDP_HEADER_LEN + |payload| <= 0xffff && UDP_HEADER_LEN + |payload| <= output.Length
    modifies output
    ensures output[..UDP_HEADER_LEN + |payload|] == Datagram(sourcePort, destinationPort, payload, UNSET)
    ensures forall k | UDP_HEADER_LEN + |payload| <= k < output.Length :: output[k] == old(output[k])
  {
    CopyFromSlice(output, 0, Be16(sourcePort));
    CopyFromSlice(output, 2, Be16(destinationPort));
    CopyFromSlice(output, 4, Be16(UDP_HEADER_LEN + |payload|));
    CopyFromSlice(output, CHECKSUM_AT, UNSET);
    CopyFromSlice(output, UDP_HEADER_LEN, payload);
  }

  method SerialiseUdpDatagram(source: Ipv4Addr, destination: Ipv4Addr, sourcePort: U16, destinationPort: U16,
                              payload: seq<Byte>, output: array<Byte>)
    returns (r: Result<nat, UdpSerialiseError>)
    modifies output
    ensures match Serialise(source, destination, sourcePort, destinationPort, payload, output.Length)
            case Ok(bytes) =>
              && r == Ok(|bytes|) && output[..|bytes|] == bytes
              && forall k | |bytes| <= k < output.Length :: output[k] == old(output[k])
            case Err(error) => r == Err(error) && output[..] == old(output[..])
  {
    var required := UDP_HEADER_LEN + |payload|;
    if required > 0xffff {
      return Err(DatagramTooLong(required, 0xffff));
    }
    if output.Length < required {
      return Err(UdpSerialiseError.BufferTooSmall(output.Length, required));
    }
    WriteZeroedDatagram(sourcePort, destinationPort, payload, output);
    var calculated := ComputeTransportChecksum(source, destination, UDP_PROTOCOL_NUMBER, required, output[..required]);
    var transmitted := if calculated == 0 then 0xffff else calculated;
    PatchField(output, required, CHECKSUM_AT, Be16(transmitted),
               Front(sourcePort, destinationPort, required), UNSET, payload);
    r := Ok(required);
  }

  function Parse(data: seq<Byte>): Result<UdpDatagram, UdpParseError> {
    if |data| < UDP_HEADER_LEN then Err(DatagramTooShort(|data|, UDP_HEADER_LEN))
    else
      var declared := Word(data[4], data[5]);
      if declared < UDP_HEADER_LEN then Err(InvalidLength(declared, UDP_HEADER_LEN))
      else if declared > |data| then Err(TruncatedDatagram(|data|, declared))
      else Ok(UdpDatagram(
        Word(data[0], data[1]),
        Word(data[2], data[3]),
        declared,
        Word(data[6], data[7]),
        data[UDP_HEADER_LEN..declared]))
  }

  function Validate(source: Ipv4Addr, destination: Ipv4Addr, data: seq<Byte>): Result<(), UdpParseError> {
    match Parse(data)
    case Err(error) => Err(error)
    case Ok(datagram) =>
      if datagram.checksum == 0 then Ok(())
      else if TransportChecksum(source, destination, UDP_PROTOCOL_NUMBER, datagram.length, data[..datagram.length]) == 0
      then Ok(())
      else Err(InvalidChecksum)
  }

  /** The computed checksum is never all ones, so 0xffff on the wire always stands for a computed zero. */
  lemma ZeroRule(source: Ipv4Addr, destination: Ipv4Addr, sourcePort: U16, destinationPort: U16, payload: seq<Byte>)
    requires UDP_HEADER_LEN + |payload| <= 0xffff
    ensures var calculated := DatagramChecksum(source, destination, sourcePort, destinationPort, payload);
            && Transmitted(calculated) != 0
            && (Transmitted(calculated) == 0xffff <==> calculated == 0)
  {
    TransportChecksumNotAllOnes(source, destination, UDP_PROTOCOL_NUMBER, UDP_HEADER_LEN + |payload|,
                                Datagram(sourcePort, destinationPort, payload, UNSET));
  }

  /** The transmitted value still makes the datagram check: all ones is another zero. */
  lemma DatagramChecks(source: Ipv4Addr, destination: Ipv4Addr, sourcePort: U16, destinationPort: U16,
      payload: seq<Byte>)
    requires UDP_HEADER_LEN + |payload| <= 0xffff
    ensures var c := Transmitted(DatagramChecksum(source, destination, sourcePort, destinationPort, payload));
            TransportChecksum(source, destination, UDP_PROTOCOL_NUMBER, UDP_HEADER_LEN + |payload|,
                              Datagram(sourcePort, destinationPort, payload, Be16(c))) == 0
  {
    var length := UDP_HEADER_LEN + |payload|;
    var front := Front(sourcePort, destinationPort, length);
    TransportFill(source, destination, UDP_PROTOCOL_NUMBER, length, front, payload);
    if DatagramChecksum(source, destination, sourcePort, destinationPort, payload) == 0 {
      TransportOtherZero(source, destination, UDP_PROTOCOL_NUMBER, length, front, payload);
    }
  }

  /** Written datagrams validate, parse back, and carry the zero rule's checksum; trailing bytes do not matter. */
  lemma ParseAfterSerialise(source: Ipv4Addr, destination: Ipv4Addr, sourcePort: U16, destinationPort: U16,
                            payload: seq<Byte>, available: nat, trailing: seq<Byte>)
    requires Serialise(source, destination, sourcePort, destinationPort, payload, available).Ok?
    ensures var bytes := Serialise(source, destination, sourcePort, destinationPort, payload, available).value;
            var calculated := DatagramChecksum(source, destination, sourcePort, destinationPort, payload);
            && Validate(source, destination, bytes + trailing) == Ok(())
            && Parse(bytes + trailing)
               == Ok(UdpDatagram(sourcePort, destinationPort, |bytes|, Transmitted(calculated), payload))
            && Parse(bytes + trailing).value.checksum != 0
  {
    var bytes := Serialise(source, destination, sourcePort, destinationPort, payload, available).value;
    var data := bytes + trailing;
    var front := Front(sourcePort, destinationPort, |bytes|);
    DatagramChecks(source, destination, sourcePort, destinationPort, payload);
    ZeroRule(source, destination, sourcePort, destinationPort, payload);
    assert forall i | 0 <= i < 6 :: data[i] == front[i];
    assert data[..|bytes|] == bytes;
    assert data[UDP_HEADER_LEN..|bytes|] == payload;
  }

  lemma PartsOfParsed(data: seq<Byte>)
    requires Parse(data).Ok?
    ensures var d := Parse(data).value;
            && UDP_HEADER_LEN <= d.length <= |data| && d.length == UDP_HEADER_LEN + |d.payload|
            && Datagram(d.sourcePort, d.destinationPort, d.payload, Be16(d.checksum)) == data[..d.length]
  {
  }

  /** Validated datagrams that carry a checksum serialise to exactly the bytes they came from. */
  lemma SerialiseAfterParse(data: seq<Byte>, source: Ipv4Addr, destination: Ipv4Addr, available: nat)
    requires Validate(source, destination, data).Ok? && Parse(data).value.checksum != 0
    requires Parse(data).value.length <= available
    ensures var d := Parse(data).value;
            && d.length <= |data|
            && Serialise(source, destination, d.sourcePort, d.destinationPort, d.payload, available)
               == Ok(data[..d.length])
  {
    var d := Parse(data).value;
    PartsOfParsed(data);
    TransportRefill(source, destination, UDP_PROTOCOL_NUMBER, d.length,
                    Front(d.sourcePort, d.destinationPort, d.length), d.checksum, d.payload);
  }

  lemma LengthByteWeighs(s: seq<Byte>, i: nat, v: Byte)
    requires |s| >= UDP_HEADER_LEN && (i == 4 || i == 5)
    ensures WordSum(s[i := v]) == WordSum(s) + Word(s[i := v][4], s[i := v][5]) - Word(s[4], s[5])
  {
    SumFromUpdate(s, i, v, 0);
  }

  /**
   A changed length byte changes which bytes are covered. It is accepted exactly if the new length is possible and
   the bytes that it adds or drops make up for counting the length twice, in the header and in the pseudo-header.
   */
  lemma LengthByteChange(data: seq<Byte>, source: Ipv4Addr, destination: Ipv4Addr, i: nat, v: Byte)
    requires Validate(source, destination, data).Ok? && Parse(data).value.checksum != 0
    requires i == 4 || i == 5
    ensures |data| >= UDP_HEADER_LEN
    ensures var length, length' := Parse(data).value.length, Word(data[i := v][4], data[i := v][5]);
            Validate(source, destination, data[i := v]).Ok?
            <==> UDP_HEADER_LEN <= length' <= |data|
                 && (WordSum(data[..length']) - WordSum(data[..length]) + 2 * (length' - length)) % MODULUS == 0
  {
    var changed := data[i := v];
    var length, length' := Parse(data).value.length, Word(changed[4], changed[5]);
    if UDP_HEADER_LEN <= length' <= |data| {
      assert changed[..length'] == data[..length'][i := v];
      LengthByteWeighs(data[..length'], i, v);
      TransportResized(source, destination, UDP_PROTOCOL_NUMBER, length, data[..length], length', changed[..length']);
    }
  }

  /**
   Which one-byte changes to a validated datagram that carries a checksum are accepted: a changed port, checksum or
   payload byte only if it turns the checksum field into zero, "no checksum"; a changed length byte only if the
   sums over the old and the new length agree.
   */
  lemma DatagramByteChange(data: seq<Byte>, source: Ipv4Addr, destination: Ipv4Addr, i: nat, v: Byte)
    requires Validate(source, destination, data).Ok? && Parse(data).value.checksum != 0
    requires i < Parse(data).value.length <= |data| && v != data[i]
    ensures var length, length' := Parse(data).value.length, Word(data[i := v][4], data[i := v][5]);
            Validate(source, destination, data[i := v]).Ok? <==>
            if i == 4 || i == 5
            then UDP_HEADER_LEN <= length' <= |data|
                 && (WordSum(data[..length']) - WordSum(data[..length]) + 2 * (length' - length)) % MODULUS == 0
            else Word(data[i := v][6], data[i := v][7]) == 0
  {
    if i == 4 || i == 5 {
      LengthByteChange(data, source, destination, i, v);
    } else {
      var length := Parse(data).value.length;
      assert data[i := v][..length] == data[..length][i := v];
      TransportByteChange(source, destination, UDP_PROTOCOL_NUMBER, length, data[..length], i, v);
    }
  }

  /** A checked datagram is rejected if one byte of the two addresses that it is checked with differs. */
  lemma AddressByteChangeRejected(data: seq<Byte>, source: Ipv4Addr, destination: Ipv4Addr,
                                  source': Ipv4Addr, destination': Ipv4Addr, i: nat, v: Byte)
    requires Validate(source, destination, data).Ok? && Parse(data).value.checksum != 0 && i < 8
    requires v != (source.Octets() + destination.Octets())[i]
    requires source'.Octets() + destination'.Octets() == (source.Octets() + destination.Octets())[i := v]
    ensures Validate(source', destination', data).Err?
  {
    var length := Parse(data).value.length;
    TransportAddressChange(source, destination, UDP_PROTOCOL_NUMBER, length, data[..length], source', destination', i,
                           v);
  }

  /** Two bytes 0xfffb behind a datagram of even length can be drawn in by changing its length. */
  lemma LengthDrawsIn(data: seq<Byte>, source: Ipv4Addr, destination: Ipv4Addr)
    requires Validate(source, destination, data).Ok? && Parse(data).value.checksum != 0
    requires var length := Parse(data).value.length;
             length % 2 == 0 && length + 2 <= |data| && data[length] == 0xff && data[length + 1] == 0xfb
    requires data[5] <= 0xfd
    ensures Validate(source, destination, data[5 := data[5] + 2]).Ok?
  {
    var length := Parse(data).value.length;
    var drawn: seq<Byte> := [0xff, 0xfb];
    assert data[..length + 2] == data[..length] + drawn;
    SumFromAppend(data[..length], drawn, 0);
    assert SumFrom(drawn, 2) == 0 && WordSum(drawn) == 0xfffb;
    LengthByteChange(data, source, destination, 5, data[5] + 2);
  }

  lemma LowLengthByte(data: seq<Byte>)
    requires Parse(data).Ok?
    ensures |data| >= UDP_HEADER_LEN && data[5] == Parse(data).value.length % 0x100
  {
  }

  /** An accepted change of a length byte exists: any written datagram of even length, followed by these two bytes. */
  lemma LengthChangeAccepted(source: Ipv4Addr, destination: Ipv4Addr, sourcePort: U16, destinationPort: U16,
                             payload: seq<Byte>, available: nat)
    requires Serialise(source, destination, sourcePort, destinationPort, payload, available).Ok?
    requires |payload| % 2 == 0 && (UDP_HEADER_LEN + |payload|) % 0x100 <= 0xfd
    ensures var data := Serialise(source, destination, sourcePort, destinationPort, payload, available).value
                        + [0xff, 0xfb];
            && Validate(source, destination, data).Ok?
            && data[5] <= 0xfd && Validate(source, destination, data[5 := data[5] + 2]).Ok?
  {
    var data := Serialise(source, destination, sourcePort, destinationPort, payload, available).value + [0xff, 0xfb];
    ParseAfterSerialise(source, destination, sourcePort, destinationPort, payload, available, [0xff, 0xfb]);
    LowLengthByte(data);
    LengthDrawsIn(data, source, destination);
  }

  /** An accepted change of a checksum byte exists: it turns the checksum 0x0001 into "no checksum". */
  lemma ChecksumChangeAccepted()
    ensures var zero, data := Ipv4Addr(0, 0, 0, 0), [0xff, 0xdd, 0, 0, 0, 8, 0, 1];
            && Validate(zero, zero, data).Ok? && Parse(data).value.checksum != 0
            && Validate(zero, zero, data[7 := 0]).Ok?
  {
    var zero: Ipv4Addr, data: seq<Byte> := Ipv4Addr(0, 0, 0, 0), [0xff, 0xdd, 0, 0, 0, 8, 0, 1];
    assert data[..8] == data;
    assert SumFrom(data, 6) == 1 && SumFrom(data, 4) == 9 && SumFrom(data, 2) == 9 && SumFrom(data, 0) == 0xffe6;
    SumFromZero(zero.Octets() + zero.Octets(), 0);
    SumFromAppend(zero.Octets() + zero.Octets(), [0, UDP_PROTOCOL_NUMBER], 0);
    assert SumFrom([0, UDP_PROTOCOL_NUMBER], 0) == 17;
    TransportSum(zero, zero, UDP_PROTOCOL_NUMBER, 8, data);
    ChecksumZero(PseudoHeader(zero, zero, UDP_PROTOCOL_NUMBER, 8) + data);
  }
}
