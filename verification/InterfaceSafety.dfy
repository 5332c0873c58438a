/** Errors of the interface, and replies to replies. */
module InterfaceSafety {
  import opened NetTypes
  import opened Interface
  import opened InterfaceReplies
  import E = Ethernet
  import P = Ipv4
  import I = Icmp
  import U = Udp
  import T = Tcp
  import A = Arp
  import L = Listener

  /** An error about the bytes received, as opposed to one about writing a reply. */
  predicate IsReceiveError(error: InterfaceError) {
    match error
    case Serialise(_) => false
    case Ipv4Serialise(_) => false
    case UdpSerialise(_) => false
    case TcpSerialise(_) => false
    case _ => true
  }

  /** A reply never fails to be written, and a frame answered with an error changes nothing. */
  lemma ErrorsChangeNothing(s: InterfaceState, input: seq<Byte>, now: nat)
    requires ProcessFrame(s, input, now).1.Err?
    ensures IsReceiveError(ProcessFrame(s, input, now).1.error)
    ensures ProcessFrame(s, input, now).0 == s
  {
    if E.Parse(input).Ok? {
      var ethernet := E.Parse(input).value;
      if ethernet.etherType == E.Ipv4 && ethernet.destinationMac == s.macAddress {
        Ipv4ErrorsChangeNothing(s, input, now);
      } else if ethernet.etherType == E.Arp && A.Parse(ethernet.payload).Ok?
                && (ethernet.destinationMac == s.macAddress || ethernet.destinationMac == BROADCAST) {
        ArpIsAnswered(s, input, now, ethernet.sourceMac, ethernet.destinationMac, A.Parse(ethernet.payload).value);
      }
    }
  }

  lemma Ipv4ErrorsChangeNothing(s: InterfaceState, input: seq<Byte>, now: nat)
    requires E.Parse(input).Ok? && E.Parse(input).value.etherType == E.Ipv4
    requires E.Parse(input).value.destinationMac == s.macAddress
    requires ProcessFrame(s, input, now).1.Err?
    ensures IsReceiveError(ProcessFrame(s, input, now).1.error)
    ensures ProcessFrame(s, input, now).0 == s
  {
    var ethernet := E.Parse(input).value;
    if P.Parse(ethernet.payload).Ok? {
      var packet := P.Parse(ethernet.payload).value;
      if IsForUs(s, input, ethernet.sourceMac, packet) {
        Dispatch(s, input, now, ethernet.sourceMac, packet);
        match packet.protocol {
          case Icmp => IcmpErrorsChangeNothing(s, input, now, ethernet.sourceMac, packet);
          case Udp => UdpErrorsChangeNothing(s, input, now, ethernet.sourceMac, packet);
          case Tcp => TcpErrorsChangeNothing(s, input, now, ethernet.sourceMac, packet);
          case Unknown(_) =>
        }
      }
    }
  }

  lemma IcmpErrorsChangeNothing(s: InterfaceState, input: seq<Byte>, now: nat, from: MacAddress, packet: P.Ipv4Packet)
    requires IsForUs(s, input, from, packet) && packet.protocol == P.Icmp
    ensures var (t, r) := ProcessFrame(s, input, now); r.Err? ==> t == s && IsReceiveError(r.error)
  {
    Dispatch(s, input, now, from, packet);
    var request := I.Parse(packet.payload);
    if request.Ok? && request.value.EchoRequest? {
      EchoRequestIsAnswered(s, input, now, from, packet, request.value.echo);
    }
  }

  lemma UdpErrorsChangeNothing(s: InterfaceState, input: seq<Byte>, now: nat, from: MacAddress, packet: P.Ipv4Packet)
    requires IsForUs(s, input, from, packet) && packet.protocol == P.Udp
    ensures var (t, r) := ProcessFrame(s, input, now); r.Err? ==> t == s && IsReceiveError(r.error)
  {
    Dispatch(s, input, now, from, packet);
    if U.Validate(packet.source, packet.destination, packet.payload).Ok? {
      var d := U.Parse(packet.payload).value;
      if d.destinationPort == UDP_ECHO_PORT && d.sourcePort != 0 {
        DatagramIsEchoed(s, input, now, from, packet);
      }
    }
  }

  lemma TcpErrorsChangeNothing(s: InterfaceState, input: seq<Byte>, now: nat, from: MacAddress, packet: P.Ipv4Packet)
    requires IsForUs(s, input, from, packet) && packet.protocol == P.Tcp
    ensures var (t, r) := ProcessFrame(s, input, now); r.Err? ==> t == s && IsReceiveError(r.error)
  {
    Dispatch(s, input, now, from, packet);
    if T.Validate(packet.source, packet.destination, packet.payload).Ok? {
      var (listener, action) := L.Receive(s.listener, packet.source, T.Parse(packet.payload).value);
      match action {
        case SendSynAck(synAck) => SynAckIsSent(s, input, now, from, packet, listener, synAck);
        case NoReply => SilentSegment(s, input, now, from, packet, listener);
      }
    }
  }

  /** An unfragmented packet that is a reply: an echo reply, a datagram from the echo port, or a SYN-ACK. */
  predicate IsReplyPacket(p: P.Ipv4Packet) {
    !p.moreFragments && p.fragmentOffset == 0
    && match p.protocol
       case Icmp => I.Parse(p.payload).Ok? && I.Parse(p.payload).value.EchoReply?
       case Udp => U.Validate(p.source, p.destination, p.payload).Ok?
           && U.Parse(p.payload).value.sourcePort == UDP_ECHO_PORT
       case Tcp =>
         T.Validate(p.source, p.destination, p.payload).Ok?
         && T.Contains(T.Parse(p.payload).value.flags, T.SYN) && T.Contains(T.Parse(p.payload).value.flags, T.ACK)
       case Unknown(_) => false
  }

  predicate IsReplyFrame(frame: seq<Byte>) {
    match E.Parse(frame)
    case Err(_) => false
    case Ok(ethernet) =>
      match ethernet.etherType
      case Arp => A.Parse(ethernet.payload).Ok? && A.Parse(ethernet.payload).value.operation == A.Reply
      case Ipv4 => P.Parse(ethernet.payload).Ok? && IsReplyPacket(P.Parse(ethernet.payload).value)
      case _ => false
  }

  /** Everything the interface sends is a reply. */
  lemma OnlyRepliesAreSent(s: InterfaceState, input: seq<Byte>, now: nat, out: seq<Byte>)
    requires ProcessFrame(s, input, now).1 == Ok(Some(out))
    ensures IsReplyFrame(out)
  {
    var ethernet := E.Parse(input).value;
    if ethernet.etherType == E.Arp {
      ArpIsAnswered(s, input, now, ethernet.sourceMac, ethernet.destinationMac, A.Parse(ethernet.payload).value);
    } else {
      var packet := P.Parse(ethernet.payload).value;
      assert IsForUs(s, input, ethernet.sourceMac, packet);
      OnlyIpv4RepliesAreSent(s, input, now, out, ethernet.sourceMac, packet);
    }
  }

  lemma CarriedReply(frame: seq<Byte>, from: MacAddress, to: MacAddress, packet: P.Ipv4Packet)
    requires Carries(frame, from, to, packet) && IsReplyPacket(packet)
    ensures IsReplyFrame(frame)
  {
  }

  lemma OnlyIpv4RepliesAreSent(s: InterfaceState, input: seq<Byte>, now: nat, out: seq<Byte>, from: MacAddress,
      packet: P.Ipv4Packet)
    requires IsForUs(s, input, from, packet)
    requires ProcessFrame(s, input, now).1 == Ok(Some(out))
    ensures IsReplyFrame(out)
  {
    Dispatch(s, input, now, from, packet);
    match packet.protocol {
      case Icmp =>
        var echo := I.Parse(packet.payload).value.echo;
        EchoRequestIsAnswered(s, input, now, from, packet, echo);
        var answer :| Carries(out, s.macAddress, from, answer) && TurnsRound(s, packet, answer)
                      && I.Parse(answer.payload) == Ok(I.EchoReply(echo));
        CarriedReply(out, s.macAddress, from, answer);
      case Udp =>
        DatagramIsEchoed(s, input, now, from, packet);
        var d := U.Parse(packet.payload).value;
        var answer :| Carries(out, s.macAddress, from, answer) && TurnsRound(s, packet, answer)
                      && IsDatagram(answer.source, answer.destination, answer.payload, UDP_ECHO_PORT, d.sourcePort,
                          d.payload);
        CarriedReply(out, s.macAddress, from, answer);
      case Tcp =>
        var (listener, action) := L.Receive(s.listener, packet.source, T.Parse(packet.payload).value);
        var synAck := action.reply;
        SynAckIsSent(s, input, now, from, packet, listener, synAck);
        var answer :| Carries(out, s.macAddress, from, answer) && TurnsRound(s, packet, answer)
                      && IsSynAck(answer.source, answer.destination, answer.payload, synAck);
        SynAckHasBothFlags(T.Parse(answer.payload).value.flags);
        CarriedReply(out, s.macAddress, from, answer);
      case Unknown(_) =>
    }
  }

  lemma SynAckHasBothFlags(flags: Byte)
    requires flags == 0x12
    ensures T.Contains(flags, T.SYN) && T.Contains(flags, T.ACK)
  {
  }

  /** The one kind of reply that is answered again: a datagram from the echo port to this interface's echo port. */
  predicate IsEchoToEcho(s: InterfaceState, frame: seq<Byte>) {
    match E.Parse(frame)
    case Err(_) => false
    case Ok(ethernet) =>
      match P.Parse(ethernet.payload)
      case Err(_) => false
      case Ok(packet) =>
        IsForUs(s, frame, ethernet.sourceMac, packet) && packet.protocol == P.Udp
        && U.Parse(packet.payload).Ok?
        && U.Parse(packet.payload).value.sourcePort == U.Parse(packet.payload).value.destinationPort == UDP_ECHO_PORT
  }

  lemma RepliesAreNotAnswered(s: InterfaceState, frame: seq<Byte>, now: nat)
    requires IsReplyFrame(frame)
    ensures ProcessFrame(s, frame, now).1.Ok?
    ensures ProcessFrame(s, frame, now).1 == Ok(None) <==> !IsEchoToEcho(s, frame)
  {
    var ethernet := E.Parse(frame).value;
    if ethernet.etherType == E.Ipv4 {
      var packet := P.Parse(ethernet.payload).value;
      if IsForUs(s, frame, ethernet.sourceMac, packet) {
        Dispatch(s, frame, now, ethernet.sourceMac, packet);
        if IsEchoToEcho(s, frame) {
          DatagramIsEchoed(s, frame, now, ethernet.sourceMac, packet);
        }
      }
    }
  }

  /**
   No reply to a reply: what one interface sends, no interface answers, whatever the states of the two and the
   time between. The only exception is a datagram between two echo ports, and it is answered by its addressee.
   */
  lemma NoReplyToReply(a: InterfaceState, input: seq<Byte>, now: nat, out: seq<Byte>, b: InterfaceState, later: nat)
    requires ProcessFrame(a, input, now).1 == Ok(Some(out))
    ensures ProcessFrame(b, out, later).1.Ok?
    ensures ProcessFrame(b, out, later).1 == Ok(None) <==> !IsEchoToEcho(b, out)
  {
    OnlyRepliesAreSent(a, input, now, out);
    RepliesAreNotAnswered(b, out, later);
  }

  /** The frame carries a datagram with this payload from one interface's echo port to the other's. */
  predicate IsEchoBetween(frame: seq<Byte>, from: InterfaceState, to: InterfaceState, payload: seq<Byte>) {
    match E.Parse(frame)
    case Err(_) => false
    case Ok(ethernet) =>
      match P.Parse(ethernet.payload)
      case Err(_) => false
      case Ok(packet) =>
        && IsForUs(to, frame, from.macAddress, packet) && packet.protocol == P.Udp && packet.source == from.ipv4Address
        && IsDatagram(from.ipv4Address, to.ipv4Address, packet.payload, UDP_ECHO_PORT, UDP_ECHO_PORT, payload)
  }

  /** What happens in the exceptional case: the datagram goes back unchanged, and is again such a datagram. */
  lemma EchoToEchoReturns(from: InterfaceState, to: InterfaceState, frame: seq<Byte>, payload: seq<Byte>, now: nat)
    requires IsEchoBetween(frame, from, to, payload)
    ensures var (t, r) := ProcessFrame(to, frame, now);
            && r.Ok? && r.value.Some? && IsEchoBetween(r.value.value, to, from, payload)
            && t == to.(nextIpv4Identification := WrappingAdd16(to.nextIpv4Identification, 1))
  {
    var packet := P.Parse(E.Parse(frame).value.payload).value;
    DatagramIsEchoed(to, frame, now, from.macAddress, packet);
    var out := ProcessFrame(to, frame, now).1.value.value;
    var answer :| Carries(out, to.macAddress, from.macAddress, answer) && TurnsRound(to, packet, answer)
                  && IsDatagram(answer.source, answer.destination, answer.payload, UDP_ECHO_PORT, UDP_ECHO_PORT,
                      payload);
    assert IsForUs(from, out, to.macAddress, answer);
  }

  /** Two interfaces and a frame on its way from one to the other. */
  datatype Exchange = Exchange(sender: InterfaceState, receiver: InterfaceState, frame: seq<Byte>)

  /** The receiver processes the frame, and its answer, if there is one, travels back. */
  function Hop(x: Exchange, now: nat): Option<Exchange> {
    var (t, r) := ProcessFrame(x.receiver, x.frame, now);
    if r.Ok? && r.value.Some? then Some(Exchange(t, x.sender, r.value.value)) else None
  }

  predicate SameStation(s: InterfaceState, t: InterfaceState) {
    s.macAddress == t.macAddress && s.ipv4Address == t.ipv4Address
  }

  /** The frame under way is the exceptional one. */
  predicate IsEchoing(x: Exchange, payload: seq<Byte>) {
    IsEchoBetween(x.frame, x.sender, x.receiver, payload)
  }

  lemma HopReturns(x: Exchange, now: nat, payload: seq<Byte>)
    requires IsEchoing(x, payload)
    ensures var y := Hop(x, now);
            && y.Some? && IsEchoing(y.value, payload)
            && SameStation(y.value.sender, x.receiver) && y.value.receiver == x.sender
  {
    EchoToEchoReturns(x.sender, x.receiver, x.frame, payload, now);
    var (t, r) := ProcessFrame(x.receiver, x.frame, now);
    SameSender(r.value.value, x.receiver, t, x.sender, payload);
  }

  /** Only the addresses of the sender matter to its frame. */
  lemma SameSender(frame: seq<Byte>, from: InterfaceState, from': InterfaceState, to: InterfaceState,
                   payload: seq<Byte>)
    requires IsEchoBetween(frame, from, to, payload) && SameStation(from, from')
    ensures IsEchoBetween(frame, from', to, payload)
  {
  }

  /**
   The frame is under way from `a` to `b`, and passing it on at the given instants takes it back and forth between
   the two, each time with the same payload.
   */
  predicate GoesBackAndForth(x: Exchange, a: InterfaceState, b: InterfaceState, times: seq<nat>, payload: seq<Byte>)
    decreases |times|
  {
    && SameStation(x.sender, a) && SameStation(x.receiver, b) && IsEchoing(x, payload)
    && (times != [] ==>
          && Hop(x, times[0]).Some?
          && GoesBackAndForth(Hop(x, times[0]).value, b, a, times[1..], payload))
  }

  /** The exchange of such a datagram never ends, however often it is passed on. */
  lemma {:induction false} EchoNeverEnds(x: Exchange, a: InterfaceState, b: InterfaceState, times: seq<nat>,
                                         payload: seq<Byte>)
    requires SameStation(x.sender, a) && SameStation(x.receiver, b) && IsEchoing(x, payload)
    ensures GoesBackAndForth(x, a, b, times, payload)
    decreases |times|
  {
    if times == [] {
    } else {
      HopReturns(x, times[0], payload);
      EchoNeverEnds(Hop(x, times[0]).value, b, a, times[1..], payload);
    }
  }

  /** The exceptional case is real: such a frame exists for any two interfaces and any payload that fits. */
  lemma EchoBetweenExists(from: InterfaceState, to: InterfaceState, payload: seq<Byte>)
    requires |payload| <= 0xffff - 28
    ensures exists frame :: IsEchoBetween(frame, from, to, payload)
  {
    var available := U.UDP_HEADER_LEN + |payload|;
    var bytes := U.Serialise(from.ipv4Address, to.ipv4Address, UDP_ECHO_PORT, UDP_ECHO_PORT, payload, available).value;
    U.ParseAfterSerialise(from.ipv4Address, to.ipv4Address, UDP_ECHO_PORT, UDP_ECHO_PORT, payload, available, []);
    assert bytes + [] == bytes;
    var ethernet := E.EthernetFrame(from.macAddress, to.macAddress, E.Ipv4, []);
    var model := P.Ipv4Packet(0, 0, 0, 0, P.Udp, false, false, 0, to.ipv4Address, from.ipv4Address, [], [], []);
    Ipv4ReplyOpens(from, ethernet, model, P.Udp, bytes);
    var frame := Ipv4Reply(from, ethernet, model, P.Udp, bytes).1.value.value;
    assert IsForUs(to, frame, from.macAddress, ReplyPacket(from, model, P.Udp, bytes));
    assert IsEchoBetween(frame, from, to, payload);
  }

  /** And interfaces send it: for any two of them, one can be made to send such a datagram to the other. */
  lemma EchoToEchoIsSent(a: InterfaceState, b: InterfaceState, payload: seq<Byte>, now: nat)
    requires |payload| <= 0xffff - 28
    ensures exists input, out :: ProcessFrame(a, input, now).1 == Ok(Some(out)) && IsEchoToEcho(b, out)
  {
    EchoBetweenExists(b, a, payload);
    var input :| IsEchoBetween(input, b, a, payload);
    EchoToEchoReturns(b, a, input, payload, now);
    assert IsEchoToEcho(b, ProcessFrame(a, input, now).1.value.value);
  }

  /** An error of the packet layers is the reason that the packet's own protocol gives. */
  predicate IsPacketError(packet: P.Ipv4Packet, error: InterfaceError) {
    match error
    case IcmpError(reason) => packet.protocol == P.Icmp && I.Parse(packet.payload) == Err(reason)
    case UdpError(reason) =>
      packet.protocol == P.Udp && U.Validate(packet.source, packet.destination, packet.payload) == Err(reason)
    case TcpError(reason) =>
      packet.protocol == P.Tcp && T.Validate(packet.source, packet.destination, packet.payload) == Err(reason)
    case _ => false
  }

  lemma IcmpErrorsNameTheirCause(s: InterfaceState, ethernet: E.EthernetFrame, packet: P.Ipv4Packet)
    requires packet.protocol == P.Icmp
    ensures var r := ProcessIcmp(s, ethernet, packet).1;
            r.Err? && IsReceiveError(r.error) ==> IsPacketError(packet, r.error)
  {
  }

  lemma UdpErrorsNameTheirCause(s: InterfaceState, ethernet: E.EthernetFrame, packet: P.Ipv4Packet)
    requires packet.protocol == P.Udp
    ensures var r := ProcessUdp(s, ethernet, packet).1;
            r.Err? && IsReceiveError(r.error) ==> IsPacketError(packet, r.error)
  {
  }

  lemma TcpErrorsNameTheirCause(s: InterfaceState, ethernet: E.EthernetFrame, packet: P.Ipv4Packet)
    requires packet.protocol == P.Tcp
    ensures var r := ProcessTcp(s, ethernet, packet).1;
            r.Err? && IsReceiveError(r.error) ==> IsPacketError(packet, r.error)
  {
  }

  /** An error says what is wrong with the frame: the layer that rejects it, and that layer's own reason. */
  predicate IsCause(frame: seq<Byte>, error: InterfaceError) {
    match E.Parse(frame)
    case Err(reason) => error == EthernetError(reason)
    case Ok(ethernet) =>
      if ethernet.etherType == E.Arp
      then A.Parse(ethernet.payload).Err? && error == ArpError(A.Parse(ethernet.payload).error)
      else
        match P.Parse(ethernet.payload)
        case Err(reason) => error == Ipv4Error(reason)
        case Ok(packet) => IsPacketError(packet, error)
  }

  lemma Ipv4ErrorsNameTheirCause(s: InterfaceState, ethernet: E.EthernetFrame)
    ensures var r := ProcessIpv4(s, ethernet).1;
            r.Err? && IsReceiveError(r.error) ==>
              match P.Parse(ethernet.payload)
              case Err(reason) => r.error == Ipv4Error(reason)
              case Ok(packet) => IsPacketError(packet, r.error)
  {
    if P.Parse(ethernet.payload).Ok? {
      var packet := P.Parse(ethernet.payload).value;
      match packet.protocol {
        case Icmp => IcmpErrorsNameTheirCause(s, ethernet, packet);
        case Udp => UdpErrorsNameTheirCause(s, ethernet, packet);
        case Tcp => TcpErrorsNameTheirCause(s, ethernet, packet);
        case Unknown(_) =>
      }
    }
  }

  lemma ErrorsNameTheirCause(s: InterfaceState, frame: seq<Byte>, now: nat)
    requires ProcessFrame(s, frame, now).1.Err?
    ensures IsCause(frame, ProcessFrame(s, frame, now).1.error)
  {
    ErrorsChangeNothing(s, frame, now);
    if E.Parse(frame).Ok? {
      Ipv4ErrorsNameTheirCause(s, E.Parse(frame).value);
    }
  }
}
