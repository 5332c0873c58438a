/** Exactly which frames the interface answers, and exactly which it rejects. */
module InterfaceOutcomes {
  import opened NetTypes
  import opened Interface
  import opened InterfaceReplies
  import E = Ethernet
  import P = Ipv4
  import I = Icmp
  import U = Udp
  import T = Tcp
  import A = Arp
  import L = Listener

  /** A packet for this interface that asks for an answer. */
  predicate AsksForAnswer(s: InterfaceState, packet: P.Ipv4Packet) {
    match packet.protocol
    case Icmp => I.Parse(packet.payload).Ok? && I.Parse(packet.payload).value.EchoRequest?
    case Udp =>
      && U.Validate(packet.source, packet.destination, packet.payload).Ok?
      && U.Parse(packet.payload).value.destinationPort == 9000 && U.Parse(packet.payload).value.sourcePort != 0
    case Tcp =>
      && T.Validate(packet.source, packet.destination, packet.payload).Ok?
      && L.Receive(s.listener, packet.source, T.Parse(packet.payload).value).1.SendSynAck?
    case Unknown(_) => false
  }

  /** A packet for this interface whose contents its protocol does not accept. */
  predicate IsMalformed(packet: P.Ipv4Packet) {
    match packet.protocol
    case Icmp => I.Parse(packet.payload).Err?
    case Udp => U.Validate(packet.source, packet.destination, packet.payload).Err?
    case Tcp => T.Validate(packet.source, packet.destination, packet.payload).Err?
    case Unknown(_) => false
  }

  /** The frame carries an ARP packet to this station, directly or by broadcast. */
  predicate IsArpForUs(s: InterfaceState, ethernet: E.EthernetFrame) {
    ethernet.etherType == E.Arp && (ethernet.destinationMac == s.macAddress || ethernet.destinationMac == BROADCAST)
  }

  ghost predicate IsAnswerableFrame(s: InterfaceState, frame: seq<Byte>) {
    || (exists from, packet :: IsForUs(s, frame, from, packet) && AsksForAnswer(s, packet))
    || (E.Parse(frame).Ok? && IsArpForUs(s, E.Parse(frame).value)
        && var arp := A.Parse(E.Parse(frame).value.payload);
           arp.Ok? && arp.value.operation == A.Request && arp.value.targetIp == s.ipv4Address)
  }

  ghost predicate IsRejectableFrame(s: InterfaceState, frame: seq<Byte>) {
    match E.Parse(frame)
    case Err(_) => true
    case Ok(ethernet) =>
      || (ethernet.etherType == E.Ipv4 && ethernet.destinationMac == s.macAddress && P.Parse(ethernet.payload).Err?)
      || (exists packet :: IsForUs(s, frame, ethernet.sourceMac, packet) && IsMalformed(packet))
      || (IsArpForUs(s, ethernet) && A.Parse(ethernet.payload).Err?)
  }

  predicate IsAnswer(r: Outcome) {
    r.Ok? && r.value.Some?
  }

  lemma OutcomeForUs(s: InterfaceState, frame: seq<Byte>, now: nat, from: MacAddress, packet: P.Ipv4Packet)
    requires IsForUs(s, frame, from, packet)
    ensures var r := ProcessFrame(s, frame, now).1;
            (IsAnswer(r) <==> AsksForAnswer(s, packet)) && (r.Err? <==> IsMalformed(packet))
  {
    Dispatch(s, frame, now, from, packet);
    match packet.protocol {
      case Icmp =>
        if AsksForAnswer(s, packet) {
          EchoRequestIsAnswered(s, frame, now, from, packet, I.Parse(packet.payload).value.echo);
        }
      case Udp =>
        if AsksForAnswer(s, packet) {
          DatagramIsEchoed(s, frame, now, from, packet);
        }
      case Tcp =>
        if !IsMalformed(packet) {
          var (listener, action) := L.Receive(s.listener, packet.source, T.Parse(packet.payload).value);
          match action {
            case SendSynAck(synAck) => SynAckIsSent(s, frame, now, from, packet, listener, synAck);
            case NoReply => SilentSegment(s, frame, now, from, packet, listener);
          }
        }
      case Unknown(_) =>
    }
  }

  /**
   For every state and every frame: an answer is sent exactly if the frame is answerable, an error is returned
   exactly if it is rejectable; all other frames are silently accepted.
   */
  lemma OutcomeIsDetermined(s: InterfaceState, frame: seq<Byte>, now: nat)
    ensures IsAnswer(ProcessFrame(s, frame, now).1) <==> IsAnswerableFrame(s, frame)
    ensures ProcessFrame(s, frame, now).1.Err? <==> IsRejectableFrame(s, frame)
  {
    if E.Parse(frame).Ok? {
      var ethernet := E.Parse(frame).value;
      if ethernet.etherType == E.Ipv4 && P.Parse(ethernet.payload).Ok? {
        var packet := P.Parse(ethernet.payload).value;
        assert forall from, p | IsForUs(s, frame, from, p) :: from == ethernet.sourceMac && p == packet;
        if IsForUs(s, frame, ethernet.sourceMac, packet) {
          OutcomeForUs(s, frame, now, ethernet.sourceMac, packet);
        }
      } else if IsArpForUs(s, ethernet) && A.Parse(ethernet.payload).Ok? {
        ArpIsAnswered(s, frame, now, ethernet.sourceMac, ethernet.destinationMac, A.Parse(ethernet.payload).value);
      }
    }
  }
}
