/** What the interface answers, frame by frame, for every state and every input. */
module InterfaceReplies {
  import opened NetTypes
  import opened Interface
  import E = Ethernet
  import P = Ipv4
  import I = Icmp
  import U = Udp
  import T = Tcp
  import A = Arp
  import R = Resolver
  import L = Listener

  /** The frame's own parsers find this packet between these stations. */
  predicate Carries(frame: seq<Byte>, from: MacAddress, to: MacAddress, packet: P.Ipv4Packet) {
    match E.Parse(frame)
    case Err(_) => false
    case Ok(ethernet) =>
      ethernet.sourceMac == from && ethernet.destinationMac == to && ethernet.etherType == E.Ipv4
      && P.Parse(ethernet.payload) == Ok(packet)
  }

  /** The frame carries an unfragmented packet for this interface. */
  predicate IsForUs(s: InterfaceState, frame: seq<Byte>, from: MacAddress, packet: P.Ipv4Packet) {
    Carries(frame, from, s.macAddress, packet) && packet.destination == s.ipv4Address
    && !packet.moreFragments && packet.fragmentOffset == 0
  }

  lemma Dispatch(s: InterfaceState, input: seq<Byte>, now: nat, from: MacAddress, packet: P.Ipv4Packet)
    requires IsForUs(s, input, from, packet)
    ensures E.Parse(input).Ok?
    ensures ProcessFrame(s, input, now) ==
            match packet.protocol
            case Icmp => ProcessIcmp(s, E.Parse(input).value, packet)
            case Udp => ProcessUdp(s, E.Parse(input).value, packet)
            case Tcp => ProcessTcp(s, E.Parse(input).value, packet)
            case Unknown(_) => (s, Ok(None))
  {
  }

  /** An IPv4 reply is always built, and opens with the stack's own parsers as the packet intended. */
  lemma Ipv4ReplyOpens(s: InterfaceState, ethernet: E.EthernetFrame, request: P.Ipv4Packet, protocol: P.Ipv4Protocol,
      payload: seq<Byte>)
    requires request.dscp <= 63 && request.ecn <= 3 && |payload| <= 0xffff - 20 && !protocol.Unknown?
    ensures var (t, r) := Ipv4Reply(s, ethernet, request, protocol, payload);
            && t == s.(nextIpv4Identification := WrappingAdd16(s.nextIpv4Identification, 1))
            && r.Ok? && r.value.Some?
            && Carries(r.value.value, s.macAddress, ethernet.sourceMac, ReplyPacket(s, request, protocol, payload))
  {
    var packet := ReplyPacket(s, request, protocol, payload);
    var available := P.IPV4_MIN_HEADER_LEN + |payload|;
    assert packet.Representable() && packet.TotalLength() == available;
    P.ParseAfterSerialise(packet, available, []);
    var bytes := P.Serialise(packet, available).value;
    assert bytes + [] == bytes;
    E.ParseAfterSerialise(E.EthernetFrame(ethernet.sourceMac, s.macAddress, E.Ipv4, bytes));
  }

  /** The answer goes back where the request came from, as a new packet of its own without options or padding. */
  predicate TurnsRound(s: InterfaceState, request: P.Ipv4Packet, answer: P.Ipv4Packet) {
    && answer.source == s.ipv4Address && answer.destination == request.source && answer.protocol == request.protocol
    && answer.dscp == request.dscp && answer.ecn == request.ecn
    && answer.identification == s.nextIpv4Identification && answer.ttl == 64
    && !answer.dontFragment && !answer.moreFragments && answer.fragmentOffset == 0
    && answer.options == [] && answer.trailingBytes == []
  }

  /** End to end: every echo request is answered by its echo reply. */
  lemma EchoRequestIsAnswered(s: InterfaceState, input: seq<Byte>, now: nat, from: MacAddress, packet: P.Ipv4Packet,
                              echo: I.IcmpEchoMessage)
    requires IsForUs(s, input, from, packet) && packet.protocol == P.Icmp
    requires I.Parse(packet.payload) == Ok(I.EchoRequest(echo))
    ensures var (t, r) := ProcessFrame(s, input, now);
            && t == s.(nextIpv4Identification := WrappingAdd16(s.nextIpv4Identification, 1))
            && r.Ok? && r.value.Some?
            && exists answer :: Carries(r.value.value, s.macAddress, from, answer) && TurnsRound(s, packet, answer)
                                && I.Parse(answer.payload) == Ok(I.EchoReply(echo))
  {
    Dispatch(s, input, now, from, packet);
    var bytes := I.Serialise(I.EchoReply(echo), |packet.payload|).value;
    I.ParseAfterSerialise(I.EchoReply(echo), |packet.payload|);
    Ipv4ReplyOpens(s, E.Parse(input).value, packet, P.Icmp, bytes);
    assert TurnsRound(s, packet, ReplyPacket(s, packet, P.Icmp, bytes));
  }

  /** End to end: every valid datagram to the echo port comes back with ports and endpoints swapped. */
  lemma DatagramIsEchoed(s: InterfaceState, input: seq<Byte>, now: nat, from: MacAddress, packet: P.Ipv4Packet)
    requires IsForUs(s, input, from, packet) && packet.protocol == P.Udp
    requires U.Validate(packet.source, packet.destination, packet.payload).Ok?
    requires var d := U.Parse(packet.payload).value; d.destinationPort == UDP_ECHO_PORT && d.sourcePort != 0
    ensures var (t, r) := ProcessFrame(s, input, now);
            var d := U.Parse(packet.payload).value;
            && t == s.(nextIpv4Identification := WrappingAdd16(s.nextIpv4Identification, 1))
            && r.Ok? && r.value.Some?
            && exists answer :: Carries(r.value.value, s.macAddress, from, answer) && TurnsRound(s, packet, answer)
                                && IsDatagram(answer.source, answer.destination, answer.payload, UDP_ECHO_PORT,
                                    d.sourcePort, d.payload)
  {
    Dispatch(s, input, now, from, packet);
    var d := U.Parse(packet.payload).value;
    var available := U.UDP_HEADER_LEN + |d.payload|;
    var bytes := U.Serialise(s.ipv4Address, packet.source, UDP_ECHO_PORT, d.sourcePort, d.payload, available).value;
    U.ParseAfterSerialise(s.ipv4Address, packet.source, UDP_ECHO_PORT, d.sourcePort, d.payload, available, []);
    assert bytes + [] == bytes;
    Ipv4ReplyOpens(s, E.Parse(input).value, packet, P.Udp, bytes);
    assert TurnsRound(s, packet, ReplyPacket(s, packet, P.Udp, bytes));
  }

  /** The bytes are a datagram with these ports and this payload whose checksum is present and holds. */
  predicate IsDatagram(source: Ipv4Addr, destination: Ipv4Addr, bytes: seq<Byte>, sourcePort: U16,
      destinationPort: U16, payload: seq<Byte>) {
    && U.Validate(source, destination, bytes) == Ok(())
    && U.Parse(bytes).Ok? && U.Parse(bytes).value.checksum != 0
    && U.Parse(bytes).value.sourcePort == sourcePort && U.Parse(bytes).value.destinationPort == destinationPort
    && U.Parse(bytes).value.payload == payload
  }

  /** The bytes are a segment that validates and carries exactly this SYN-ACK. */
  predicate IsSynAck(source: Ipv4Addr, destination: Ipv4Addr, bytes: seq<Byte>, synAck: L.SynAck) {
    && T.Validate(source, destination, bytes) == Ok(())
    && T.Parse(bytes).Ok?
    && var segment := T.Parse(bytes).value;
       && segment.sourcePort == synAck.sourcePort && segment.destinationPort == synAck.destinationPort
       && segment.sequenceNumber == synAck.sequenceNumber
       && segment.acknowledgementNumber == synAck.acknowledgementNumber
       && segment.flags == 0x12 && segment.windowSize == synAck.windowSize && segment.urgentPointer == 0
       && segment.reserved == 0 && segment.options == [] && segment.payload == []
  }

  lemma SynAckBytes(synAck: L.SynAck, source: Ipv4Addr, destination: Ipv4Addr)
    ensures var r := T.Serialise(SynAckSegment(synAck), source, destination, T.TCP_MIN_HEADER_LEN);
            r.Ok? && |r.value| == 20 && IsSynAck(source, destination, r.value, synAck)
  {
    var segment := SynAckSegment(synAck);
    assert segment.SegmentLength() == T.TCP_MIN_HEADER_LEN && segment.Representable();
    T.ParseAfterSerialise(segment, source, destination, T.TCP_MIN_HEADER_LEN);
    var parsed := T.Parse(T.Serialise(segment, source, destination, T.TCP_MIN_HEADER_LEN).value).value;
    assert parsed.ToSend() == segment;
    assert BitOr(T.SYN, T.ACK) == 0x12;
  }

  /** A SYN-ACK of the listener always becomes an IPv4 reply. */
  lemma SynAckIsWrapped(s: InterfaceState, ethernet: E.EthernetFrame, packet: P.Ipv4Packet,
                        listener: L.ListenerState, synAck: L.SynAck)
    requires packet.dscp <= 63 && packet.ecn <= 3 && packet.protocol == P.Tcp
    requires T.Validate(packet.source, packet.destination, packet.payload).Ok?
    requires L.Receive(s.listener, packet.source, T.Parse(packet.payload).value) == (listener, L.SendSynAck(synAck))
    ensures var (t, r) := ProcessTcp(s, ethernet, packet);
            && t == s.(listener := listener, nextIpv4Identification := WrappingAdd16(s.nextIpv4Identification, 1))
            && r.Ok? && r.value.Some?
            && exists answer :: Carries(r.value.value, s.macAddress, ethernet.sourceMac, answer)
                && TurnsRound(s, packet, answer)
                                && IsSynAck(answer.source, answer.destination, answer.payload, synAck)
  {
    SynAckBytes(synAck, s.ipv4Address, packet.source);
    var bytes := T.Serialise(SynAckSegment(synAck), s.ipv4Address, packet.source, T.TCP_MIN_HEADER_LEN).value;
    var received := s.(listener := listener);
    Ipv4ReplyOpens(received, ethernet, packet, P.Tcp, bytes);
    assert TurnsRound(s, packet, ReplyPacket(received, packet, P.Tcp, bytes));
  }

  /** End to end: whenever the listener wants a SYN-ACK sent, it is sent, and opens as that SYN-ACK. */
  lemma SynAckIsSent(s: InterfaceState, input: seq<Byte>, now: nat, from: MacAddress, packet: P.Ipv4Packet,
                     listener: L.ListenerState, synAck: L.SynAck)
    requires IsForUs(s, input, from, packet) && packet.protocol == P.Tcp
    requires T.Validate(packet.source, packet.destination, packet.payload).Ok?
    requires L.Receive(s.listener, packet.source, T.Parse(packet.payload).value) == (listener, L.SendSynAck(synAck))
    ensures var (t, r) := ProcessFrame(s, input, now);
            && t == s.(listener := listener, nextIpv4Identification := WrappingAdd16(s.nextIpv4Identification, 1))
            && r.Ok? && r.value.Some?
            && exists answer :: Carries(r.value.value, s.macAddress, from, answer) && TurnsRound(s, packet, answer)
                                && IsSynAck(answer.source, answer.destination, answer.payload, synAck)
  {
    Dispatch(s, input, now, from, packet);
    SynAckIsWrapped(s, E.Parse(input).value, packet, listener, synAck);
  }

  /** A segment that the listener does not answer moves the listener and nothing else. */
  lemma SilentSegment(s: InterfaceState, input: seq<Byte>, now: nat, from: MacAddress, packet: P.Ipv4Packet,
                      listener: L.ListenerState)
    requires IsForUs(s, input, from, packet) && packet.protocol == P.Tcp
    requires T.Validate(packet.source, packet.destination, packet.payload).Ok?
    requires L.Receive(s.listener, packet.source, T.Parse(packet.payload).value) == (listener, L.NoReply)
    ensures ProcessFrame(s, input, now) == (s.(listener := listener), Ok(None))
  {
    Dispatch(s, input, now, from, packet);
  }

  /** The frame carries this ARP packet between these stations. */
  predicate CarriesArp(frame: seq<Byte>, from: MacAddress, to: MacAddress, packet: A.ArpPacket) {
    match E.Parse(frame)
    case Err(_) => false
    case Ok(ethernet) =>
      ethernet.sourceMac == from && ethernet.destinationMac == to && ethernet.etherType == E.Arp
      && A.Parse(ethernet.payload) == Ok(packet)
  }

  /** End to end: every ARP packet is observed, and exactly the requests for this address are answered. */
  lemma ArpIsAnswered(s: InterfaceState, input: seq<Byte>, now: nat, from: MacAddress, to: MacAddress,
      packet: A.ArpPacket)
    requires CarriesArp(input, from, to, packet) && (to == s.macAddress || to == BROADCAST)
    ensures var (t, r) := ProcessFrame(s, input, now);
            && t == s.(resolver := R.AfterObserve(s.resolver, packet, now))
            && if packet.operation == A.Request && packet.targetIp == s.ipv4Address
               then r.Ok? && r.value.Some?
                    && CarriesArp(r.value.value, s.macAddress, packet.senderMac,
                                  A.ArpPacket(6, 4, A.Reply, s.macAddress, s.ipv4Address, packet.senderMac,
                                      packet.senderIp, []))
               else r == Ok(None)
  {
    var reply := A.BuildReply(packet, s.macAddress, s.ipv4Address);
    if reply.Some? {
      A.ParseAfterSerialise(reply.value);
      E.ParseAfterSerialise(E.EthernetFrame(reply.value.targetMac, s.macAddress, E.Arp, A.Packet(reply.value)));
    }
  }
}
