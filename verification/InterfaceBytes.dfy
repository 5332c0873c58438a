/** What the interface answers, from the bytes of the frame received to the bytes of the frame sent. */
module InterfaceBytes {
  import opened NetTypes
  import opened Checksum
  import opened Interface
  import opened InterfaceReplies
  import opened WireFormat
  import E = Ethernet
  import A = Arp
  import P = Ipv4
  import I = Icmp
  import U = Udp
  import T = Tcp
  import R = Resolver
  import L = Listener
  import LH = ListenerHistory
  import IH = InterfaceHistory

  /** The first fourteen bytes: to this station or to all, and an ARP packet inside. */
  predicate IsArpFrameForUs(s: InterfaceState, frame: seq<Byte>) {
    && |frame| >= 14 && frame[12..14] == [0x08, 0x06]
    && (MacAt(frame, 0) == MacAddress(0xff, 0xff, 0xff, 0xff, 0xff, 0xff) || MacAt(frame, 0) == s.macAddress)
  }

  /** The rest: an Ethernet and IPv4 request for the address of this interface. */
  predicate AsksForUs(s: InterfaceState, frame: seq<Byte>) {
    |frame| >= 42 && frame[14..22] == [0, 1, 8, 0, 6, 4, 0, 1] && IpAt(frame, 38) == s.ipv4Address
  }

  /** The packet in such a frame, by position. */
  function RequestIn(frame: seq<Byte>): A.ArpPacket
    requires |frame| >= 42
  {
    A.ArpPacket(6, 4, A.Request, MacAt(frame, 22), IpAt(frame, 28), MacAt(frame, 32), IpAt(frame, 38), frame[42..])
  }

  lemma RequestByPosition(frame: seq<Byte>)
    requires |frame| >= 42
    ensures frame[14..22] == [0, 1, 8, 0, 6, 4, 0, 1] <==> A.Parse(frame[14..]) == Ok(RequestIn(frame))
    ensures A.Parse(frame[14..]).Ok? && A.Parse(frame[14..]).value.operation == A.Request
            ==> A.Parse(frame[14..]) == Ok(RequestIn(frame))
  {
    var data := frame[14..];
    ArpByPosition(data);
    assert data[28..] == frame[42..];
    assert frame[14..22] == data[..6] + [data[6], data[7]];
    if frame[14..22] == [0, 1, 8, 0, 6, 4, 0, 1] {
      assert data[0] == frame[14..22][0] && data[1] == frame[14..22][1] && data[2] == frame[14..22][2];
      assert data[3] == frame[14..22][3] && data[4] == frame[14..22][4] && data[5] == frame[14..22][5];
      assert data[6] == frame[14..22][6] && data[7] == frame[14..22][7];
    }
  }

  lemma ArpReplyBytes(mac: MacAddress, ip: Ipv4Addr, to: MacAddress, toIp: Ipv4Addr)
    ensures var reply := A.ArpPacket(6, 4, A.Reply, mac, ip, to, toIp, []);
            E.Frame(E.EthernetFrame(to, mac, E.Arp, A.Packet(reply)))
            == to.Octets() + mac.Octets() + [0x08, 0x06, 0, 1, 8, 0, 6, 4, 0, 2]
               + mac.Octets() + ip.Octets() + to.Octets() + toIp.Octets()
  {
    var reply := A.ArpPacket(6, 4, A.Reply, mac, ip, to, toIp, []);
    Be16Unique(0x08, 0x06);
    Be16Unique(0, 1);
    Be16Unique(8, 0);
    Be16Unique(0, 2);
    assert A.Types(reply) == [0, 1, 8, 0, 6, 4, 0, 2];
  }

  /**
   Exactly which ARP frames are answered, in bytes: those to this station or to all whose bytes 14 to 22 say
   "Ethernet, IPv4, request" and whose bytes 38 to 42 are this address.
   */
  lemma ArpFramesAnswered(s: InterfaceState, frame: seq<Byte>, now: nat)
    requires |frame| >= 14 && frame[12..14] == [0x08, 0x06]
    ensures var r := ProcessFrame(s, frame, now).1;
            r.Ok? && r.value.Some? <==> IsArpFrameForUs(s, frame) && AsksForUs(s, frame)
  {
    EthernetByPosition(frame);
    var ethernet := E.Parse(frame).value;
    if IsArpFrameForUs(s, frame) && |frame| >= 42 {
      RequestByPosition(frame);
    }
    ArpByPosition(frame[14..]);
    if A.Parse(frame[14..]).Ok? && IsArpFrameForUs(s, frame) {
      ArpIsAnswered(s, frame, now, ethernet.sourceMac, ethernet.destinationMac, A.Parse(frame[14..]).value);
    }
  }

  lemma OctetsAt(frame: seq<Byte>)
    requires |frame| >= 42
    ensures MacAt(frame, 22).Octets() == frame[22..28] && IpAt(frame, 28).Octets() == frame[28..32]
  {
  }

  lemma ArpHeader(s: InterfaceState, frame: seq<Byte>)
    requires IsArpFrameForUs(s, frame)
    ensures E.Parse(frame).Ok?
    ensures var ethernet := E.Parse(frame).value;
            && ethernet.payload == frame[14..] && ethernet.etherType == E.Arp
            && (ethernet.destinationMac == s.macAddress || ethernet.destinationMac == BROADCAST)
  {
    EthernetByPosition(frame);
  }

  lemma ArpDispatch(s: InterfaceState, frame: seq<Byte>, now: nat, ethernet: E.EthernetFrame)
    requires E.Parse(frame) == Ok(ethernet) && ethernet.etherType == E.Arp
    requires ethernet.destinationMac == s.macAddress || ethernet.destinationMac == BROADCAST
    ensures ProcessFrame(s, frame, now) == ProcessArp(s, ethernet, now)
  {
  }

  lemma ArpStep(s: InterfaceState, ethernet: E.EthernetFrame, now: nat, request: A.ArpPacket)
    requires A.Parse(ethernet.payload) == Ok(request)
    requires request.operation == A.Request && request.targetIp == s.ipv4Address
    ensures var reply := A.ArpPacket(6, 4, A.Reply, s.macAddress, s.ipv4Address, request.senderMac,
                                     request.senderIp, []);
            ProcessArp(s, ethernet, now)
            == (s.(resolver := R.AfterObserve(s.resolver, request, now)),
                Ok(Some(E.Frame(E.EthernetFrame(request.senderMac, s.macAddress, E.Arp, A.Packet(reply))))))
  {
  }

  /** And what the answer is, byte by byte; the lesson in the request is learned. */
  lemma ArpReplyOverBytes(s: InterfaceState, frame: seq<Byte>, now: nat)
    requires IsArpFrameForUs(s, frame) && AsksForUs(s, frame)
    ensures ProcessFrame(s, frame, now)
            == (s.(resolver := R.AfterObserve(s.resolver, RequestIn(frame), now)),
                Ok(Some(frame[22..28] + s.macAddress.Octets() + [0x08, 0x06, 0, 1, 8, 0, 6, 4, 0, 2]
                        + s.macAddress.Octets() + s.ipv4Address.Octets() + frame[22..28] + frame[28..32])))
  {
    ArpHeader(s, frame);
    RequestByPosition(frame);
    ArpDispatch(s, frame, now, E.Parse(frame).value);
    ArpStep(s, E.Parse(frame).value, now, RequestIn(frame));
    ArpReplyBytes(s.macAddress, s.ipv4Address, MacAt(frame, 22), IpAt(frame, 28));
    OctetsAt(frame);
  }

  lemma Unfragmented(hi: Byte, lo: Byte)
    requires hi < 0x80
    ensures hi / 0x20 % 2 != 1 && Number16([hi, lo], 0) % 0x2000 == 0 <==> (hi == 0 || hi == 0x40) && lo == 0
  {
  }

  /** An unfragmented IPv4 packet to the address of this interface, in bytes. */
  predicate IsPacketForUs(s: InterfaceState, data: seq<Byte>) {
    && Ipv4Fits(data) && Balanced(WordSum(data[..data[0] % 16 * 4]))
    && (data[6] == 0 || data[6] == 0x40) && data[7] == 0 && IpAt(data, 16) == s.ipv4Address
  }

  lemma PacketOverBytes(s: InterfaceState, data: seq<Byte>)
    ensures IsPacketForUs(s, data) <==>
            P.Parse(data).Ok? && P.Parse(data).value.destination == s.ipv4Address
            && !P.Parse(data).value.moreFragments && P.Parse(data).value.fragmentOffset == 0
  {
    Ipv4ByPosition(data);
    if Ipv4Fits(data) && data[6] < 0x80 {
      Unfragmented(data[6], data[7]);
    }
  }

  /** Which frames carry a packet for this interface, in bytes. */
  lemma ForUsOverBytes(s: InterfaceState, frame: seq<Byte>)
    ensures (exists from, packet :: IsForUs(s, frame, from, packet)) <==>
            && |frame| >= 14 && MacAt(frame, 0) == s.macAddress && frame[12..14] == [0x08, 0x00]
            && IsPacketForUs(s, frame[14..])
  {
    EthernetByPosition(frame);
    if |frame| >= 14 {
      PacketOverBytes(s, frame[14..]);
      if P.Parse(frame[14..]).Ok? {
        var packet := P.Parse(frame[14..]).value;
        assert forall from, p | IsForUs(s, frame, from, p) :: p == packet;
        assert IsPacketForUs(s, frame[14..]) && MacAt(frame, 0) == s.macAddress && frame[12..14] == [0x08, 0x00]
          ==> IsForUs(s, frame, MacAt(frame, 6), packet);
      }
    }
  }

  /** An echo message that is accepted in the sense of `IcmpByPosition`: type 8 asks, type 0 answers. */
  predicate IsEcho(m: seq<Byte>, messageType: Byte) {
    I.Parse(m).Ok? && |m| >= 8 && m[0] == messageType
  }

  lemma EchoParts(m: seq<Byte>, messageType: Byte)
    requires messageType == 8 || messageType == 0
    ensures IsEcho(m, messageType) <==>
            I.Parse(m).Ok? && if messageType == 8 then I.Parse(m).value.EchoRequest? else I.Parse(m).value.EchoReply?
  {
    IcmpByPosition(m);
  }

  lemma SameEcho(x: seq<Byte>, y: seq<Byte>)
    requires IsEcho(x, 8) && IsEcho(y, 0) && !I.Parse(x).value.Unknown?
    requires I.Parse(y) == Ok(I.EchoReply(I.Parse(x).value.echo))
    ensures |y| == |x| && y[4..] == x[4..]
  {
    IcmpByPosition(x);
    IcmpByPosition(y);
    assert x[4..] == [x[4], x[5], x[6], x[7]] + x[8..] && y[4..] == [y[4], y[5], y[6], y[7]] + y[8..];
  }

  /** An echo request, in bytes, comes back as the echo reply: type 0, all else but the checksum as it was. */
  lemma EchoOverBytes(s: InterfaceState, frame: seq<Byte>, now: nat, from: MacAddress, packet: P.Ipv4Packet)
    requires IsForUs(s, frame, from, packet) && packet.protocol == P.Icmp && IsEcho(packet.payload, 8)
    ensures var r := ProcessFrame(s, frame, now).1;
            && r.Ok? && r.value.Some?
            && exists answer :: Carries(r.value.value, s.macAddress, from, answer) && TurnsRound(s, packet, answer)
                                && IsEcho(answer.payload, 0) && |answer.payload| == |packet.payload|
                                && answer.payload[4..] == packet.payload[4..]
  {
    EchoParts(packet.payload, 8);
    var echo := I.Parse(packet.payload).value.echo;
    EchoRequestIsAnswered(s, frame, now, from, packet, echo);
    var out := ProcessFrame(s, frame, now).1.value.value;
    var answer :| Carries(out, s.macAddress, from, answer) && TurnsRound(s, packet, answer)
                  && I.Parse(answer.payload) == Ok(I.EchoReply(echo));
    EchoParts(answer.payload, 0);
    SameEcho(packet.payload, answer.payload);
  }

  /** A datagram that is valid in the sense of `UdpValidity`, with these ports in its first four bytes. */
  predicate IsDatagramBytes(source: Ipv4Addr, destination: Ipv4Addr, m: seq<Byte>, sourcePort: nat,
      destinationPort: nat) {
    && U.Validate(source, destination, m).Ok? && |m| >= 8 && 8 <= Number16(m, 4) <= |m|
    && Number16(m, 0) == sourcePort && Number16(m, 2) == destinationPort
  }

  lemma DatagramParts(source: Ipv4Addr, destination: Ipv4Addr, m: seq<Byte>, sourcePort: U16, destinationPort: U16,
                      payload: seq<Byte>)
    requires IsDatagram(source, destination, m, sourcePort, destinationPort, payload)
    ensures IsDatagramBytes(source, destination, m, sourcePort, destinationPort)
    ensures Number16(m, 6) != 0 && m[8..Number16(m, 4)] == payload
  {
    UdpByPosition(m);
  }

  /**
   A valid datagram to port 9000 from another port than 0, with or without a checksum, comes back with the ports
   exchanged, the same payload and a checksum.
   */
  lemma DatagramOverBytes(s: InterfaceState, frame: seq<Byte>, now: nat, from: MacAddress, packet: P.Ipv4Packet,
                          port: U16)
    requires IsForUs(s, frame, from, packet) && packet.protocol == P.Udp && port != 0
    requires IsDatagramBytes(packet.source, packet.destination, packet.payload, port, 9000)
    ensures var r, m := ProcessFrame(s, frame, now).1, packet.payload;
            && r.Ok? && r.value.Some?
            && exists answer ::
                 && Carries(r.value.value, s.macAddress, from, answer) && TurnsRound(s, packet, answer)
                 && IsDatagramBytes(answer.source, answer.destination, answer.payload, 9000, port)
                 && Number16(answer.payload, 6) != 0
                 && answer.payload[8..Number16(answer.payload, 4)] == m[8..Number16(m, 4)]
  {
    UdpByPosition(packet.payload);
    DatagramIsEchoed(s, frame, now, from, packet);
    var d := U.Parse(packet.payload).value;
    var out := ProcessFrame(s, frame, now).1.value.value;
    var answer :| Carries(out, s.macAddress, from, answer) && TurnsRound(s, packet, answer)
                  && IsDatagram(answer.source, answer.destination, answer.payload, 9000, d.sourcePort, d.payload);
    DatagramParts(answer.source, answer.destination, answer.payload, 9000, d.sourcePort, d.payload);
  }

  /** The bytes of a plain SYN to port 9000 that balances. */
  predicate IsSynBytes(source: Ipv4Addr, destination: Ipv4Addr, m: seq<Byte>) {
    && 20 <= |m| <= 0xffff && m[12] / 16 * 4 == |m| && m[13] % 0x40 == 0x02
    && Number16(m, 0) != 0 && Number16(m, 2) == 9000
    && Balanced(WordSum(source.Octets() + destination.Octets()) + 6 + |m| + WordSum(m))
  }

  /** The bytes of a SYN-ACK from port 9000. */
  predicate IsSynAckBytes(m: seq<Byte>, port: nat, sequenceNumber: nat, acknowledgementNumber: nat) {
    && |m| == 20 && m[12] == 0x50 && m[13] == 0x12
    && Number16(m, 0) == 9000 && Number16(m, 2) == port
    && Number32(m, 4) == sequenceNumber && Number32(m, 8) == acknowledgementNumber
    && Number16(m, 14) == 64240 && Number16(m, 18) == 0
  }

  /** A segment without options and payload is a header of twenty bytes. */
  lemma BareSegment(m: seq<Byte>)
    requires T.Parse(m).Ok?
    requires var p := T.Parse(m).value; p.options == [] && p.payload == [] && p.reserved == 0
    ensures var p := T.Parse(m).value;
            && |m| == 20 && m[12] == 0x50 && m[13] == p.flags
            && Number16(m, 0) == p.sourcePort && Number16(m, 2) == p.destinationPort
            && Number32(m, 4) == p.sequenceNumber && Number32(m, 8) == p.acknowledgementNumber
            && Number16(m, 14) == p.windowSize && Number16(m, 18) == p.urgentPointer
  {
    TcpByPosition(m);
    assert |m[20..m[12] / 16 * 4]| == 0 && |m[m[12] / 16 * 4..]| == 0;
  }

  lemma SynParts(source: Ipv4Addr, destination: Ipv4Addr, m: seq<Byte>)
    requires IsSynBytes(source, destination, m)
    ensures T.Validate(source, destination, m).Ok?
    ensures var segment := T.Parse(m).value;
            && segment.flags % 0x40 == 0x02 && segment.payload == [] && segment.sourcePort == Number16(m, 0)
            && segment.destinationPort == 9000 && segment.sequenceNumber == Number32(m, 4)
  {
    TcpByPosition(m);
    TcpValidity(source, destination, m);
  }

  /** The outcome is a frame whose packet carries these bytes of a SYN-ACK, valid in the sense of `TcpValidity`. */
  ghost predicate DrawsSynAck(s: InterfaceState, r: Outcome, to: Ipv4Addr, port: nat, sequenceNumber: nat,
      acknowledgementNumber: nat) {
    r.Ok? && r.value.Some?
    && exists mac, answer ::
         && Carries(r.value.value, s.macAddress, mac, answer)
         && answer.source == s.ipv4Address && answer.destination == to
         && T.Validate(s.ipv4Address, to, answer.payload).Ok?
         && IsSynAckBytes(answer.payload, port, sequenceNumber, acknowledgementNumber)
  }

  lemma SynAckIsDrawn(s: InterfaceState, r: Outcome, to: Ipv4Addr, synAck: L.SynAck)
    requires IH.IsSynAckTo(s, r, to, synAck) && synAck.sourcePort == 9000 && synAck.windowSize == 64240
    ensures DrawsSynAck(s, r, to, synAck.destinationPort, synAck.sequenceNumber, synAck.acknowledgementNumber)
  {
    var mac, answer :|
      && Carries(r.value.value, s.macAddress, mac, answer)
      && answer.source == s.ipv4Address && answer.destination == to
      && IsSynAck(answer.source, answer.destination, answer.payload, synAck);
    BareSegment(answer.payload);
  }

  lemma AnswerIsDrawn(s: InterfaceState, r: Outcome, a: LH.Arrival, n: nat)
    requires IH.IsSynAckTo(s, r, a.remoteIp, LH.AnswerOf(IH.ListenerConfig(s.ipv4Address), a, n).reply)
    ensures DrawsSynAck(s, r, a.remoteIp, a.segment.sourcePort, (0x1234_5678 + n) % 0x1_0000_0000,
                        (a.segment.sequenceNumber + 1) % 0x1_0000_0000)
  {
    SynAckIsDrawn(s, r, a.remoteIp, LH.AnswerOf(IH.ListenerConfig(s.ipv4Address), a, n).reply);
  }

  /** The segment that a frame with these bytes delivers. */
  lemma SynIsDelivered(s: InterfaceState, frame: seq<Byte>, from: MacAddress, packet: P.Ipv4Packet)
    requires IsForUs(s, frame, from, packet) && packet.protocol == P.Tcp
    requires IsSynBytes(packet.source, packet.destination, packet.payload)
    ensures T.Parse(packet.payload).Ok?
    ensures IH.DeliveredSegment(s.macAddress, s.ipv4Address, frame)
            == Some(LH.Arrival(packet.source, T.Parse(packet.payload).value))
  {
    SynParts(packet.source, packet.destination, packet.payload);
    IH.ForUsDelivers(s, frame, from, packet);
  }

  /**
   A plain SYN, in bytes, to a new interface after any run that leaves room for it, draws the SYN-ACK with the next
   initial sequence number and the acknowledgement of the SYN.
   */
  lemma SynOverBytes(s: InterfaceState, calls: seq<IH.Call>, input: IH.Input, from: MacAddress, packet: P.Ipv4Packet,
                     n: nat)
    requires IH.IsNew(s) && IsForUs(s, input.frame, from, packet) && packet.protocol == P.Tcp
    requires IsSynBytes(packet.source, packet.destination, packet.payload)
    requires var table := IH.Run(s, calls).listener.connections;
             n == |table| < 64 && forall key | key in table ::
               key.remoteIp != packet.source || key.remotePort != Number16(packet.payload, 0)
    ensures DrawsSynAck(s, ProcessFrame(IH.Run(s, calls), input.frame, input.now).1, packet.source,
                        Number16(packet.payload, 0), (0x1234_5678 + n) % 0x1_0000_0000,
                        (Number32(packet.payload, 4) + 1) % 0x1_0000_0000)
  {
    SynParts(packet.source, packet.destination, packet.payload);
    SynIsDelivered(s, input.frame, from, packet);
    IH.NewSynFrameIsAnswered(s, calls, input);
    AnswerIsDrawn(s, ProcessFrame(IH.Run(s, calls), input.frame, input.now).1,
                  LH.Arrival(packet.source, T.Parse(packet.payload).value), n);
  }
}
