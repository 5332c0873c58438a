/** ICMP echo messages (RFC 792): in-place serialiser, parser and the reply rule. */
module Icmp {
  import opened NetTypes
  import opened Checksum

  const ICMP_HEADER_LEN := 4
  const ICMP_ECHO_HEADER_LEN := 8
  const ECHO_REPLY_TYPE: Byte := 0
  const ECHO_REQUEST_TYPE: Byte := 8
  const CHECKSUM_AT := 2

  datatype IcmpEchoMessage = IcmpEchoMessage(identifier: U16, sequenceNumber: U16, payload: seq<Byte>)

  datatype IcmpMessage =
    | EchoRequest(echo: IcmpEchoMessage)
    | EchoReply(echo: IcmpEchoMessage)
    | Unknown(messageType: Byte, code: Byte, body: seq<Byte>)
  {
    function Required(): nat {
      match this
      case EchoRequest(echo) => ICMP_ECHO_HEADER_LEN + |echo.payload|
      case EchoReply(echo) => ICMP_ECHO_HEADER_LEN + |echo.payload|
      case Unknown(_, _, body) => ICMP_HEADER_LEN + |body|
    }

    /** Whether the message is what its type number says: echo types are not called unknown. */
    predicate HasCanonicalType() {
      Unknown? ==> messageType != ECHO_REPLY_TYPE && messageType != ECHO_REQUEST_TYPE
    }
  }

  datatype IcmpParseError =
    | MessageTooShort(actual: nat, minimum: nat)
    | EchoMessageTooShort(actual: nat, minimum: nat)
    | InvalidEchoCode(messageType: Byte, code: Byte)
    | InvalidChecksum

  function Front(m: IcmpMessage): (s: seq<Byte>)
    ensures |s| == CHECKSUM_AT
  {
    match m
    case EchoRequest(_) => [ECHO_REQUEST_TYPE, 0]
    case EchoReply(_) => [ECHO_REPLY_TYPE, 0]
    case Unknown(messageType, code, _) => [messageType, code]
  }

  function Back(m: IcmpMessage): (s: seq<Byte>)
    ensures |s| == m.Required() - 4
  {
    match m
    case Unknown(_, _, body) => body
    case _ => Be16(m.echo.identifier) + Be16(m.echo.sequenceNumber) + m.echo.payload
  }

  function Message(m: IcmpMessage, checksum: seq<Byte>): seq<Byte> {
    Front(m) + checksum + Back(m)
  }

  function MessageChecksum(m: IcmpMessage): U16 {
    InternetChecksum(Message(m, UNSET))
  }

  function Serialise(m: IcmpMessage, available: nat): (r: Result<seq<Byte>, SerialiseError>)
    ensures r.Ok? <==> m.Required() <= available
    ensures r.Ok? ==> |r.value| == m.Required()
  {
    if available < m.Required() then Err(BufferTooSmall(available, m.Required()))
    else Ok(Message(m, Be16(MessageChecksum(m))))
  }

  /** Type, code and body are copied first; the checksum field is zeroed last. */
  method WriteZeroedMessage(m: IcmpMessage, output: array<Byte>)
    requires m.Required() <= output.Length
    modifies output
    ensures output[..m.Required()] == Message(m, UNSET)
    ensures forall k | m.Required() <= k < output.Length :: output[k] == old(output[k])
  {
    ghost var stale := output[2..4];
    CopyFromSlice(output, 0, Front(m));
    assert output[..4] == Front(m) + stale;
    match m {
      case Unknown(_, _, body) =>
        CopyFromSlice(output, ICMP_HEADER_LEN, body);
      case _ =>
        CopyFromSlice(output, 4, Be16(m.echo.identifier));
        CopyFromSlice(output, 6, Be16(m.echo.sequenceNumber));
        CopyFromSlice(output, ICMP_ECHO_HEADER_LEN, m.echo.payload);
        Regroup(Front(m) + stale, Be16(m.echo.identifier), Be16(m.echo.sequenceNumber), m.echo.payload);
    }
    PatchField(output, m.Required(), CHECKSUM_AT, UNSET, Front(m), stale, Back(m));
  }

  method WriteTo(m: IcmpMessage, output: array<Byte>) returns (r: Result<nat, SerialiseError>)
    modifies output
    ensures match Serialise(m, output.Length)
            case Ok(bytes) =>
              && r == Ok(|bytes|) && output[..|bytes|] == bytes
              && forall k | |bytes| <= k < output.Length :: output[k] == old(output[k])
            case Err(error) => r == Err(error) && output[..] == old(output[..])
  {
    var required := m.Required();
    if output.Length < required {
      return Err(BufferTooSmall(output.Length, required));
    }
    WriteZeroedMessage(m, output);
    var checksum, _ := ComputeChecksum(output[..required]);
    PatchField(output, required, CHECKSUM_AT, Be16(checksum), Front(m), UNSET, Back(m));
    r := Ok(required);
  }

  function Parse(data: seq<Byte>): Result<IcmpMessage, IcmpParseError> {
    if |data| < ICMP_HEADER_LEN then Err(MessageTooShort(|data|, ICMP_HEADER_LEN))
    else
      var messageType, code := data[0], data[1];
      var isEcho := messageType == ECHO_REPLY_TYPE || messageType == ECHO_REQUEST_TYPE;
      if isEcho && code != 0 then Err(InvalidEchoCode(messageType, code))
      else if isEcho && |data| < ICMP_ECHO_HEADER_LEN then Err(EchoMessageTooShort(|data|, ICMP_ECHO_HEADER_LEN))
      else if InternetChecksum(data) != 0 then Err(InvalidChecksum)
      else if !isEcho then Ok(Unknown(messageType, code, data[ICMP_HEADER_LEN..]))
      else
        var echo := IcmpEchoMessage(Word(data[4], data[5]), Word(data[6], data[7]), data[ICMP_ECHO_HEADER_LEN..]);
        Ok(if messageType == ECHO_REQUEST_TYPE then EchoRequest(echo) else EchoReply(echo))
  }

  function BuildEchoReply(request: IcmpMessage): Option<IcmpMessage> {
    match request
    case EchoRequest(echo) => Some(EchoReply(echo))
    case _ => None
  }

  /** A written message parses back to itself exactly when its type is canonical. */
  lemma ParseAfterSerialise(m: IcmpMessage, available: nat)
    requires Serialise(m, available).Ok?
    ensures Parse(Serialise(m, available).value) == Ok(m) <==> m.HasCanonicalType()
  {
    FillBetween(Front(m), Back(m));
    var back := Back(m);
    var data := Serialise(m, available).value;
    assert data[0] == Front(m)[0] && data[1] == Front(m)[1];
    assert data[4..] == back;
    if !m.Unknown? {
      assert forall i | 4 <= i < |data| :: data[i] == back[i - 4];
      assert data[8..] == back[4..] == m.echo.payload;
    }
  }

  lemma PartsOfParsed(data: seq<Byte>)
    requires Parse(data).Ok?
    ensures |data| >= 4 && Front(Parse(data).value) == data[..2] && Back(Parse(data).value) == data[4..]
  {
    var m := Parse(data).value;
    if !m.Unknown? {
      Be16Unique(data[4], data[5]);
      Be16Unique(data[6], data[7]);
      assert data[4..] == [data[4], data[5]] + [data[6], data[7]] + data[8..];
    }
  }

  lemma MessageOfParsed(data: seq<Byte>, field: seq<Byte>)
    requires Parse(data).Ok? && |field| == 2
    ensures |data| >= 4 && Message(Parse(data).value, field) == WithField(data, CHECKSUM_AT, field)
  {
    PartsOfParsed(data);
  }

  /** The checksum field of a message, with 0xffff read as 0x0000 unless all other bytes are zero. */
  function RecomputedChecksum(data: seq<Byte>): U16
    requires |data| >= 4
  {
    var others := WithField(data, CHECKSUM_AT, UNSET);
    if forall i | 0 <= i < |others| :: others[i] == 0 then Word(data[2], data[3])
    else Canonical(Word(data[2], data[3]))
  }

  lemma RefilledParsed(data: seq<Byte>)
    requires Parse(data).Ok?
    ensures |data| >= 4 && MessageChecksum(Parse(data).value) == RecomputedChecksum(data)
  {
    var w := Word(data[2], data[3]);
    assert WithField(data, CHECKSUM_AT, Be16(w)) == data;
    MessageOfParsed(data, Be16(w));
    MessageOfParsed(data, UNSET);
    RefillBetween(data[..2], w, data[4..]);
    SumFromZero(WithField(data, CHECKSUM_AT, UNSET), 0);
  }

  /** Accepted messages serialise to the bytes they came from, up to the two zeros. */
  lemma SerialiseAfterParse(data: seq<Byte>, available: nat)
    requires Parse(data).Ok? && |data| <= available
    ensures |data| >= 4
    ensures Serialise(Parse(data).value, available)
            == Ok(WithField(data, CHECKSUM_AT, Be16(RecomputedChecksum(data))))
  {
    RefilledParsed(data);
    MessageOfParsed(data, Be16(MessageChecksum(Parse(data).value)));
  }

  /** Every single-byte change to an accepted message is rejected. */
  lemma MessageByteChangeRejected(data: seq<Byte>, i: nat, v: Byte)
    requires Parse(data).Ok? && i < |data| && v != data[i]
    ensures Parse(data[i := v]).Err?
  {
    SingleByteChangeDetected(data, i, v);
  }
}
