/** TCP segments (section 3.1 of RFC 9293): in-place serialiser, parser and checksum test. */
module Tcp {
  import opened NetTypes
  import opened Checksum

  const TCP_MIN_HEADER_LEN := 20
  const TCP_MAX_OPTION_LEN := 40
  const TCP_MIN_DATA_OFFSET := 5
  const TCP_PROTOCOL_NUMBER: Byte := 6
  const CHECKSUM_AT := 16

  const FIN: Byte := 0x01
  const SYN: Byte := 0x02
  const RST: Byte := 0x04
  const PSH: Byte := 0x08
  const ACK: Byte := 0x10
  const URG: Byte := 0x20

  predicate Contains(flags: Byte, flag: Byte) {
    BitAnd(flags, flag) == flag
  }

  datatype TcpSegment = TcpSegment(
    sourcePort: U16,
    destinationPort: U16,
    sequenceNumber: U32,
    acknowledgementNumber: U32,
    dataOffset: Byte,
    reserved: Byte,
    flags: Byte,
    windowSize: U16,
    checksum: U16,
    urgentPointer: U16,
    options: seq<Byte>,
    payload: seq<Byte>)
  {
    function ToSend(): TcpSegmentToSend {
      TcpSegmentToSend(sourcePort, destinationPort, sequenceNumber, acknowledgementNumber, flags,
                       windowSize, urgentPointer, options, payload)
    }
  }

  datatype TcpSegmentToSend = TcpSegmentToSend(
    sourcePort: U16,
    destinationPort: U16,
    sequenceNumber: U32,
    acknowledgementNumber: U32,
    flags: Byte,
    windowSize: U16,
    urgentPointer: U16,
    options: seq<Byte>,
    payload: seq<Byte>)
  {
    function HeaderLength(): nat {
      TCP_MIN_HEADER_LEN + |options|
    }

    function SegmentLength(): nat {
      HeaderLength() + |payload|
    }

    predicate Representable() {
      |options| <= TCP_MAX_OPTION_LEN && |options| % 4 == 0 && SegmentLength() <= 0xffff
    }
  }

  datatype TcpSerialiseError =
    | BufferTooSmall(actual: nat, required: nat)
    | SegmentTooLong(actual: nat, maximum: nat)
    | OptionsNotMultipleOfFour(actual: nat)
    | OptionsTooLong(actual: nat, maximum: nat)

  datatype TcpParseError =
    | SegmentTooShort(actual: nat, minimum: nat)
    | SegmentTooLong(actual: nat, maximum: nat)
    | InvalidDataOffset(dataOffset: Byte, minimum: nat)
    | TruncatedHeader(actual: nat, required: nat)
    | InvalidChecksum

  function Numbers(p: TcpSegmentToSend): seq<Byte> {
    Be16(p.sourcePort) + Be16(p.destinationPort) + Be32(p.sequenceNumber) + Be32(p.acknowledgementNumber)
  }

  /** The sixteen bytes before the checksum field. */
  function Front(p: TcpSegmentToSend): (s: seq<Byte>)
    requires p.Representable()
    ensures |s| == CHECKSUM_AT
  {
    Numbers(p) + [p.HeaderLength() / 4 * 16, p.flags] + Be16(p.windowSize)
  }

  /** Everything behind the checksum field. */
  function Back(p: TcpSegmentToSend): seq<Byte> {
    Be16(p.urgentPointer) + p.options + p.payload
  }

  function Segment(p: TcpSegmentToSend, checksum: seq<Byte>): seq<Byte>
    requires p.Representable()
  {
    Front(p) + checksum + Back(p)
  }

  function SegmentChecksum(p: TcpSegmentToSend, source: Ipv4Addr, destination: Ipv4Addr): U16
    requires p.Representable()
  {
    TransportChecksum(source, destination, TCP_PROTOCOL_NUMBER, p.SegmentLength(), Segment(p, UNSET))
  }

  /** The outcome of serialising into a buffer of `available` bytes. */
  function Serialise(p: TcpSegmentToSend, source: Ipv4Addr, destination: Ipv4Addr, available: nat)
    : (r: Result<seq<Byte>, TcpSerialiseError>)
    ensures r.Ok? ==> p.Representable() && |r.value| == p.SegmentLength() <= available
    ensures p.Representable() && p.SegmentLength() <= available ==> r.Ok?
  {
    if |p.options| > TCP_MAX_OPTION_LEN then Err(OptionsTooLong(|p.options|, TCP_MAX_OPTION_LEN))
    else if |p.options| % 4 != 0 then Err(OptionsNotMultipleOfFour(|p.options|))
    else if p.SegmentLength() > 0xffff then Err(TcpSerialiseError.SegmentTooLong(p.SegmentLength(), 0xffff))
    else if available < p.SegmentLength() then Err(TcpSerialiseError.BufferTooSmall(available, p.SegmentLength()))
    else Ok(Segment(p, Be16(SegmentChecksum(p, source, destination))))
  }

  /** The field by field copying of the segment, with the checksum still zero. */
  method WriteZeroedSegment(p: TcpSegmentToSend, output: array<Byte>)
    requires p.Representable() && p.SegmentLength() <= output.Length
    modifies output
    ensures output[..p.SegmentLength()] == Segment(p, UNSET)
    ensures forall k | p.SegmentLength() <= k < output.Length :: output[k] == old(output[k])
  {
    CopyFromSlice(output, 0, Be16(p.sourcePort));
    CopyFromSlice(output, 2, Be16(p.destinationPort));
    CopyFromSlice(output, 4, Be32(p.sequenceNumber));
    CopyFromSlice(output, 8, Be32(p.acknowledgementNumber));
    assert output[..12] == Numbers(p);
    CopyFromSlice(output, 12, [p.HeaderLength() / 4 * 16, p.flags]);
    CopyFromSlice(output, 14, Be16(p.windowSize));
    assert output[..CHECKSUM_AT] == Front(p);
    CopyFromSlice(output, CHECKSUM_AT, UNSET);
    CopyFromSlice(output, 18, Be16(p.urgentPointer));
    CopyFromSlice(output, TCP_MIN_HEADER_LEN, p.options);
    CopyFromSlice(output, p.HeaderLength(), p.payload);
    Regroup(Front(p) + UNSET, Be16(p.urgentPointer), p.options, p.payload);
  }

  method WriteTo(p: TcpSegmentToSend, source: Ipv4Addr, destination: Ipv4Addr, output: array<Byte>)
    returns (r: Result<nat, TcpSerialiseError>)
    modifies output
    ensures match Serialise(p, source, destination, output.Length)
            case Ok(bytes) =>
              && r == Ok(|bytes|) && output[..|bytes|] == bytes
              && forall k | |bytes| <= k < output.Length :: output[k] == old(output[k])
            case Err(error) => r == Err(error) && output[..] == old(output[..])
  {
    if |p.options| > TCP_MAX_OPTION_LEN {
      return Err(OptionsTooLong(|p.options|, TCP_MAX_OPTION_LEN));
    }
    if |p.options| % 4 != 0 {
      return Err(OptionsNotMultipleOfFour(|p.options|));
    }
    var headerLength := TCP_MIN_HEADER_LEN + |p.options|;
    if |p.payload| > 0xffff - headerLength {
      return Err(TcpSerialiseError.SegmentTooLong(headerLength + |p.payload|, 0xffff));
    }
    var segmentLength := headerLength + |p.payload|;
    if output.Length < segmentLength {
      return Err(TcpSerialiseError.BufferTooSmall(output.Length, segmentLength));
    }

    WriteZeroedSegment(p, output);
    var checksum := ComputeTransportChecksum(source, destination, TCP_PROTOCOL_NUMBER, segmentLength,
        output[..segmentLength]);
    PatchField(output, segmentLength, CHECKSUM_AT, Be16(checksum), Front(p), UNSET, Back(p));
    r := Ok(segmentLength);
  }

  function Parse(data: seq<Byte>): Result<TcpSegment, TcpParseError> {
    if |data| < TCP_MIN_HEADER_LEN then Err(SegmentTooShort(|data|, TCP_MIN_HEADER_LEN))
    else
      var dataOffset := data[12] / 16;
      var headerLength := dataOffset * 4;
      if dataOffset < TCP_MIN_DATA_OFFSET then Err(InvalidDataOffset(dataOffset, TCP_MIN_DATA_OFFSET))
      else if |data| < headerLength then Err(TruncatedHeader(|data|, headerLength))
      else Ok(TcpSegment(
        Word(data[0], data[1]),
        Word(data[2], data[3]),
        DoubleWord(data[4], data[5], data[6], data[7]),
        DoubleWord(data[8], data[9], data[10], data[11]),
        dataOffset,
        data[12] % 16,
        data[13],
        Word(data[14], data[15]),
        Word(data[16], data[17]),
        Word(data[18], data[19]),
        data[TCP_MIN_HEADER_LEN..headerLength],
        data[headerLength..]))
  }

  function Validate(source: Ipv4Addr, destination: Ipv4Addr, data: seq<Byte>): Result<(), TcpParseError> {
    match Parse(data)
    case Err(error) => Err(error)
    case Ok(_) =>
      if |data| > 0xffff then Err(TcpParseError.SegmentTooLong(|data|, 0xffff))
      else if TransportChecksum(source, destination, TCP_PROTOCOL_NUMBER, |data|, data) == 0 then Ok(())
      else Err(InvalidChecksum)
  }

  lemma NumbersDecode(p: TcpSegmentToSend)
    ensures var f := Numbers(p);
            && |f| == 12
            && Word(f[0], f[1]) == p.sourcePort && Word(f[2], f[3]) == p.destinationPort
            && DoubleWord(f[4], f[5], f[6], f[7]) == p.sequenceNumber
            && DoubleWord(f[8], f[9], f[10], f[11]) == p.acknowledgementNumber
  {
    var f := Numbers(p);
    assert f[4..8] == Be32(p.sequenceNumber) && f[8..12] == Be32(p.acknowledgementNumber);
  }

  lemma DataOffsetDecodes(headerLength: nat)
    requires headerLength % 4 == 0 && 20 <= headerLength <= 60
    ensures var b := headerLength / 4 * 16; b <= 0xff && b / 16 * 4 == headerLength && b % 16 == 0
  {
  }

  lemma ControlDecodes(p: TcpSegmentToSend)
    requires p.Representable()
    ensures var f := Front(p);
            && f[..12] == Numbers(p)
            && f[12] / 16 * 4 == p.HeaderLength() && f[12] % 16 == 0 && f[13] == p.flags
            && Word(f[14], f[15]) == p.windowSize
  {
    DataOffsetDecodes(p.HeaderLength());
    assert Front(p)[14..] == Be16(p.windowSize);
  }

  /** Written segments validate for the same addresses and parse back to every field. */
  lemma ParseAfterSerialise(p: TcpSegmentToSend, source: Ipv4Addr, destination: Ipv4Addr, available: nat)
    requires Serialise(p, source, destination, available).Ok?
    ensures var bytes := Serialise(p, source, destination, available).value;
            && Validate(source, destination, bytes) == Ok(())
            && Parse(bytes).Ok?
            && Parse(bytes).value.ToSend() == p
            && Parse(bytes).value.reserved == 0
            && Parse(bytes).value.dataOffset == p.HeaderLength() / 4
            && Parse(bytes).value.checksum == SegmentChecksum(p, source, destination)
  {
    var c := SegmentChecksum(p, source, destination);
    var front, back := Front(p), Back(p);
    var data := front + Be16(c) + back;
    TransportFill(source, destination, TCP_PROTOCOL_NUMBER, p.SegmentLength(), front, back);
    NumbersDecode(p);
    ControlDecodes(p);
    assert forall i | 0 <= i < 12 :: front[i] == Numbers(p)[i];
    assert forall i | 0 <= i < 16 :: data[i] == front[i];
    assert data[18] == Be16(p.urgentPointer)[0] && data[19] == Be16(p.urgentPointer)[1];
    assert data[TCP_MIN_HEADER_LEN..p.HeaderLength()] == p.options;
    assert data[p.HeaderLength()..] == p.payload;
  }

  /** The first twelve bytes are determined by the four numbers they carry. */
  lemma NumbersUnique(p: TcpSegmentToSend, data: seq<Byte>)
    requires |data| >= 12
    requires p.sourcePort == Word(data[0], data[1]) && p.destinationPort == Word(data[2], data[3])
    requires p.sequenceNumber == DoubleWord(data[4], data[5], data[6], data[7])
    requires p.acknowledgementNumber == DoubleWord(data[8], data[9], data[10], data[11])
    ensures Numbers(p) == data[..12]
  {
    Be16Unique(data[0], data[1]);
    Be16Unique(data[2], data[3]);
    Be32Unique(data[4], data[5], data[6], data[7]);
    Be32Unique(data[8], data[9], data[10], data[11]);
  }

  lemma FrontOfParsed(data: seq<Byte>)
    requires Parse(data).Ok? && Parse(data).value.reserved == 0 && |data| <= 0xffff
    ensures var p := Parse(data).value.ToSend();
            p.Representable() && p.SegmentLength() == |data| && Front(p) == data[..CHECKSUM_AT]
  {
    var p := Parse(data).value.ToSend();
    assert p.HeaderLength() == data[12] / 16 * 4 && p.SegmentLength() == |data|;
    NumbersUnique(p, data);
    Be16Unique(data[14], data[15]);
  }

  lemma BackOfParsed(data: seq<Byte>)
    requires Parse(data).Ok?
    ensures |data| >= 20 && Back(Parse(data).value.ToSend()) == data[CHECKSUM_AT + 2..]
  {
  }

  lemma SegmentOfParsed(data: seq<Byte>)
    requires Parse(data).Ok? && Parse(data).value.reserved == 0 && |data| <= 0xffff
    ensures var p := Parse(data).value; p.ToSend().Representable() && Segment(p.ToSend(), Be16(p.checksum)) == data
  {
    FrontOfParsed(data);
    BackOfParsed(data);
    Be16Unique(data[16], data[17]);
  }

  lemma RefilledSegment(p: TcpSegmentToSend, w: U16, source: Ipv4Addr, destination: Ipv4Addr)
    requires p.Representable()
    requires TransportChecksum(source, destination, TCP_PROTOCOL_NUMBER, p.SegmentLength(), Segment(p, Be16(w))) == 0
    ensures SegmentChecksum(p, source, destination) == Canonical(w)
  {
    TransportRefill(source, destination, TCP_PROTOCOL_NUMBER, p.SegmentLength(), Front(p), w, Back(p));
  }

  /** Validated segments with clear reserved bits serialise to the bytes they came from, up to the two zeros. */
  lemma SerialiseAfterParse(data: seq<Byte>, source: Ipv4Addr, destination: Ipv4Addr, available: nat)
    requires Validate(source, destination, data).Ok? && Parse(data).value.reserved == 0 && |data| <= available
    ensures Serialise(Parse(data).value.ToSend(), source, destination, available)
            == Ok(WithField(data, CHECKSUM_AT, Be16(Canonical(Parse(data).value.checksum))))
  {
    var p, w := Parse(data).value.ToSend(), Parse(data).value.checksum;
    FrontOfParsed(data);
    BackOfParsed(data);
    SegmentOfParsed(data);
    RefilledSegment(p, w, source, destination);
    assert Segment(p, Be16(Canonical(w))) == WithField(data, CHECKSUM_AT, Be16(Canonical(w)));
  }

  /** Every single-byte change to a validated segment is rejected. */
  lemma SegmentByteChangeRejected(data: seq<Byte>, source: Ipv4Addr, destination: Ipv4Addr, i: nat, v: Byte)
    requires Validate(source, destination, data).Ok? && i < |data| && v != data[i]
    ensures Validate(source, destination, data[i := v]).Err?
  {
    TransportByteChange(source, destination, TCP_PROTOCOL_NUMBER, |data|, data, i, v);
  }

  /** So is a validated segment when one byte of the two addresses it is checked with differs. */
  lemma AddressByteChangeRejected(data: seq<Byte>, source: Ipv4Addr, destination: Ipv4Addr,
                                  source': Ipv4Addr, destination': Ipv4Addr, i: nat, v: Byte)
    requires Validate(source, destination, data).Ok? && i < 8
    requires v != (source.Octets() + destination.Octets())[i]
    requires source'.Octets() + destination'.Octets() == (source.Octets() + destination.Octets())[i := v]
    ensures Validate(source', destination', data).Err?
  {
    TransportAddressChange(source, destination, TCP_PROTOCOL_NUMBER, |data|, data, source', destination', i, v);
  }

  function Power(k: nat): nat {
    if k == 0 then 1 else 2 * Power(k - 1)
  }

  function Shifted(x: nat, k: nat): nat {
    if k == 0 then x else Shifted(x / 2, k - 1)
  }

  /** "And" with a power of two is one bit of the number. */
  lemma {:induction false} AndPower(x: nat, k: nat)
    ensures BitAnd(x, Power(k)) == if Shifted(x, k) % 2 == 1 then Power(k) else 0
    decreases k
  {
    if k == 0 {
      assert x != 0 ==> BitAnd(x / 2, 0) == 0;
    } else {
      AndPower(x / 2, k - 1);
      assert Power(k) % 2 == 0 && Power(k) / 2 == Power(k - 1);
      if x == 0 {
        AndPower(0, k - 1);
      }
    }
  }

  lemma {:induction false} ShiftStep(x: nat, k: nat)
    ensures Shifted(x, k) == 2 * Shifted(x, k + 1) + Shifted(x, k) % 2
    decreases k
  {
    if k == 0 {
      assert Shifted(x, 1) == Shifted(x / 2, 0) == x / 2;
    } else {
      ShiftStep(x / 2, k - 1);
    }
  }

  lemma SumOfBits(x: nat, q: nat, b0: nat, b1: nat, b2: nat, b3: nat, b4: nat, b5: nat)
    requires x == 2 * (2 * (2 * (2 * (2 * (2 * q + b5) + b4) + b3) + b2) + b1) + b0
    requires b0 < 2 && b1 < 2 && b2 < 2 && b3 < 2 && b4 < 2 && b5 < 2
    ensures x % 0x40 == b0 + 2 * b1 + 4 * b2 + 8 * b3 + 16 * b4 + 32 * b5
  {
    assert x == 0x40 * q + (b0 + 2 * b1 + 4 * b2 + 8 * b3 + 16 * b4 + 32 * b5);
  }

  function BitIf(b: bool): nat {
    if b then 1 else 0
  }

  lemma FlagBit(flags: Byte, flag: Byte, k: nat)
    requires flag == Power(k)
    ensures BitIf(Contains(flags, flag)) == Shifted(flags, k) % 2
  {
    AndPower(flags, k);
  }

  /** The low six bits of the flag byte are the six flags it contains. */
  lemma FlagBits(flags: Byte)
    ensures flags % 0x40 == BitIf(Contains(flags, FIN)) + 2 * BitIf(Contains(flags, SYN))
                            + 4 * BitIf(Contains(flags, RST)) + 8 * BitIf(Contains(flags, PSH))
                            + 16 * BitIf(Contains(flags, ACK)) + 32 * BitIf(Contains(flags, URG))
  {
    forall k | 0 <= k < 6 {
      ShiftStep(flags, k);
    }
    FlagBit(flags, FIN, 0);
    FlagBit(flags, SYN, 1);
    FlagBit(flags, RST, 2);
    FlagBit(flags, PSH, 3);
    FlagBit(flags, ACK, 4);
    FlagBit(flags, URG, 5);
    SumOfBits(flags, Shifted(flags, 6), Shifted(flags, 0) % 2, Shifted(flags, 1) % 2, Shifted(flags, 2) % 2,
              Shifted(flags, 3) % 2, Shifted(flags, 4) % 2, Shifted(flags, 5) % 2);
  }
}
