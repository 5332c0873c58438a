/** The network interface: one received frame in, at most one reply out. */
module Interface {
  import opened NetTypes
  import E = Ethernet
  import P = Ipv4
  import I = Icmp
  import U = Udp
  import T = Tcp
  import A = Arp
  import C = Cache
  import R = Resolver
  import L = Listener

  const DEFAULT_IPV4_TTL: Byte := 64
  const UDP_ECHO_PORT: U16 := 9000
  const TCP_ECHO_PORT: U16 := 9000
  const DEFAULT_TCP_CONNECTION_CAPACITY := 64
  const DEFAULT_TCP_INITIAL_SEQUENCE: U32 := 0x1234_5678

  datatype InterfaceError =
    | EthernetError(ethernet: E.EthernetParseError)
    | Ipv4Error(ipv4: P.Ipv4ParseError)
    | IcmpError(icmp: I.IcmpParseError)
    | Serialise(serialise: SerialiseError)
    | Ipv4Serialise(ipv4Serialise: P.Ipv4SerialiseError)
    | ArpError(arp: A.ArpParseError)
    | UdpError(udp: U.UdpParseError)
    | UdpSerialise(udpSerialise: U.UdpSerialiseError)
    | TcpError(tcp: T.TcpParseError)
    | TcpSerialise(tcpSerialise: T.TcpSerialiseError)

  type Outcome = Result<Option<seq<Byte>>, InterfaceError>

  datatype InterfaceState = InterfaceState(
    macAddress: MacAddress,
    ipv4Address: Ipv4Addr,
    nextIpv4Identification: U16,
    resolver: R.ResolverState,
    listener: L.ListenerState)

  /** A new interface; it listens for TCP on the echo port of its own address. */
  function Initial(macAddress: MacAddress, ipv4Address: Ipv4Addr, cacheCapacity: nat, cacheTtl: nat,
                   retryInterval: nat, maxAttempts: nat, lastInstant: nat): InterfaceState
  {
    InterfaceState(
      macAddress, ipv4Address, 0,
      R.ResolverState(macAddress, ipv4Address, C.CacheState(map[], cacheCapacity, cacheTtl), map[],
                      retryInterval, maxAttempts, lastInstant),
      L.ListenerState(ipv4Address, TCP_ECHO_PORT, DEFAULT_TCP_CONNECTION_CAPACITY, DEFAULT_TCP_INITIAL_SEQUENCE, map[]))
  }

  /** The packet that carries a reply: endpoints turned round, DSCP and ECN kept, no options. */
  function ReplyPacket(s: InterfaceState, request: P.Ipv4Packet, protocol: P.Ipv4Protocol,
      payload: seq<Byte>): P.Ipv4Packet {
    P.Ipv4Packet(
      request.dscp, request.ecn, s.nextIpv4Identification, DEFAULT_IPV4_TTL, protocol, false, false, 0,
      s.ipv4Address, request.source, [], payload, [])
  }

  function Ipv4Reply(s: InterfaceState, ethernet: E.EthernetFrame, request: P.Ipv4Packet, protocol: P.Ipv4Protocol,
      payload: seq<Byte>)
    : (InterfaceState, Outcome)
  {
    match P.Serialise(ReplyPacket(s, request, protocol, payload), P.IPV4_MIN_HEADER_LEN + |payload|)
    case Err(error) => (s, Err(Ipv4Serialise(error)))
    case Ok(ipv4Bytes) =>
      match E.Serialise(E.EthernetFrame(ethernet.sourceMac, s.macAddress, E.Ipv4, ipv4Bytes),
          E.ETHERNET_HEADER_LEN + |ipv4Bytes|)
      case Err(error) => (s, Err(Serialise(error)))
      case Ok(output) =>
        (s.(nextIpv4Identification := WrappingAdd16(s.nextIpv4Identification, 1)), Ok(Some(output)))
  }

  function ProcessIcmp(s: InterfaceState, ethernet: E.EthernetFrame, ipv4: P.Ipv4Packet): (InterfaceState, Outcome) {
    match I.Parse(ipv4.payload)
    case Err(error) => (s, Err(IcmpError(error)))
    case Ok(request) =>
      match I.BuildEchoReply(request)
      case None => (s, Ok(None))
      case Some(reply) =>
        match I.Serialise(reply, |ipv4.payload|)
        case Err(error) => (s, Err(Serialise(error)))
        case Ok(icmpBytes) => Ipv4Reply(s, ethernet, ipv4, P.Icmp, icmpBytes)
  }

  function ProcessUdp(s: InterfaceState, ethernet: E.EthernetFrame, ipv4: P.Ipv4Packet): (InterfaceState, Outcome) {
    match U.Validate(ipv4.source, ipv4.destination, ipv4.payload)
    case Err(error) => (s, Err(UdpError(error)))
    case Ok(_) =>
      match U.Parse(ipv4.payload)
      case Err(error) => (s, Err(UdpError(error)))
      case Ok(request) =>
        if request.destinationPort != UDP_ECHO_PORT || request.sourcePort == 0 then (s, Ok(None))
        else
          match U.Serialise(s.ipv4Address, ipv4.source, UDP_ECHO_PORT, request.sourcePort, request.payload,
                            U.UDP_HEADER_LEN + |request.payload|)
          case Err(error) => (s, Err(UdpSerialise(error)))
          case Ok(udpBytes) => Ipv4Reply(s, ethernet, ipv4, P.Udp, udpBytes)
  }

  /** The segment that carries a SYN-ACK. */
  function SynAckSegment(synAck: L.SynAck): T.TcpSegmentToSend {
    T.TcpSegmentToSend(
      synAck.sourcePort, synAck.destinationPort, synAck.sequenceNumber, synAck.acknowledgementNumber,
      BitOr(T.SYN, T.ACK), synAck.windowSize, 0, [], [])
  }

  function ProcessTcp(s: InterfaceState, ethernet: E.EthernetFrame, ipv4: P.Ipv4Packet): (InterfaceState, Outcome) {
    match T.Validate(ipv4.source, ipv4.destination, ipv4.payload)
    case Err(error) => (s, Err(TcpError(error)))
    case Ok(_) =>
      match T.Parse(ipv4.payload)
      case Err(error) => (s, Err(TcpError(error)))
      case Ok(request) =>
        var (listener, action) := L.Receive(s.listener, ipv4.source, request);
        var received := s.(listener := listener);
        match action
        case NoReply => (received, Ok(None))
        case SendSynAck(synAck) =>
          match T.Serialise(SynAckSegment(synAck), s.ipv4Address, ipv4.source, T.TCP_MIN_HEADER_LEN)
          case Err(error) => (received, Err(TcpSerialise(error)))
          case Ok(tcpBytes) => Ipv4Reply(received, ethernet, ipv4, P.Tcp, tcpBytes)
  }

  function ProcessIpv4(s: InterfaceState, ethernet: E.EthernetFrame): (InterfaceState, Outcome) {
    match P.Parse(ethernet.payload)
    case Err(error) => (s, Err(Ipv4Error(error)))
    case Ok(ipv4) =>
      if ipv4.destination != s.ipv4Address then (s, Ok(None))
      else if ipv4.moreFragments || ipv4.fragmentOffset != 0 then (s, Ok(None))
      else
        match ipv4.protocol
        case Icmp => ProcessIcmp(s, ethernet, ipv4)
        case Udp => ProcessUdp(s, ethernet, ipv4)
        case Tcp => ProcessTcp(s, ethernet, ipv4)
        case Unknown(_) => (s, Ok(None))
  }

  function ProcessArp(s: InterfaceState, ethernet: E.EthernetFrame, now: nat): (InterfaceState, Outcome) {
    match A.Parse(ethernet.payload)
    case Err(error) => (s, Err(ArpError(error)))
    case Ok(request) =>
      var observed := s.(resolver := R.AfterObserve(s.resolver, request, now));
      match A.BuildReply(request, s.macAddress, s.ipv4Address)
      case None => (observed, Ok(None))
      case Some(reply) =>
        match A.Serialise(reply, A.ARP_HEADER_LEN)
        case Err(error) => (observed, Err(Serialise(error)))
        case Ok(arpBytes) =>
          match E.Serialise(E.EthernetFrame(reply.targetMac, s.macAddress, E.Arp, arpBytes),
              E.ETHERNET_HEADER_LEN + |arpBytes|)
          case Err(error) => (observed, Err(Serialise(error)))
          case Ok(output) => (observed, Ok(Some(output)))
  }

  function ProcessFrame(s: InterfaceState, input: seq<Byte>, now: nat): (InterfaceState, Outcome) {
    match E.Parse(input)
    case Err(error) => (s, Err(EthernetError(error)))
    case Ok(ethernet) =>
      if ethernet.etherType == E.Ipv4 && ethernet.destinationMac == s.macAddress then ProcessIpv4(s, ethernet)
      else if ethernet.etherType == E.Arp
          && (ethernet.destinationMac == s.macAddress || ethernet.destinationMac == BROADCAST)
      then ProcessArp(s, ethernet, now)
      else (s, Ok(None))
  }

  // Serialisation into a freshly allocated, zeroed buffer of exactly the right length. The
  // assertions are the debug assertions of the source: the buffer is filled completely.

  method EthernetBytes(frame: E.EthernetFrame, length: nat) returns (r: Result<seq<Byte>, SerialiseError>)
    requires length == frame.Required()
    ensures r == E.Serialise(frame, length)
  {
    var buffer := new Byte[length](_ => 0);
    var written := E.WriteTo(frame, buffer);
    match written {
      case Err(error) =>
        r := Err(error);
      case Ok(count) =>
        assert count == buffer.Length && buffer[..] == buffer[..count];
        r := Ok(buffer[..]);
    }
  }

  method ArpBytes(packet: A.ArpPacket) returns (r: Result<seq<Byte>, SerialiseError>)
    ensures r == A.Serialise(packet, A.ARP_HEADER_LEN)
  {
    var buffer := new Byte[A.ARP_HEADER_LEN](_ => 0);
    var written := A.WriteTo(packet, buffer);
    match written {
      case Err(error) =>
        r := Err(error);
      case Ok(count) =>
        assert count == buffer.Length && buffer[..] == buffer[..count];
        r := Ok(buffer[..]);
    }
  }

  method Ipv4Bytes(packet: P.Ipv4Packet, length: nat) returns (r: Result<seq<Byte>, P.Ipv4SerialiseError>)
    requires length == packet.TotalLength()
    ensures r == P.Serialise(packet, length)
  {
    var buffer := new Byte[length](_ => 0);
    var written := P.WriteTo(packet, buffer);
    match written {
      case Err(error) =>
        r := Err(error);
      case Ok(count) =>
        assert count == buffer.Length && buffer[..] == buffer[..count];
        r := Ok(buffer[..]);
    }
  }

  method IcmpBytes(message: I.IcmpMessage, length: nat) returns (r: Result<seq<Byte>, SerialiseError>)
    requires length == message.Required()
    ensures r == I.Serialise(message, length)
  {
    var buffer := new Byte[length](_ => 0);
    var written := I.WriteTo(message, buffer);
    match written {
      case Err(error) =>
        r := Err(error);
      case Ok(count) =>
        assert count == buffer.Length && buffer[..] == buffer[..count];
        r := Ok(buffer[..]);
    }
  }

  method UdpBytes(source: Ipv4Addr, destination: Ipv4Addr, sourcePort: U16, destinationPort: U16, payload: seq<Byte>)
    returns (r: Result<seq<Byte>, U.UdpSerialiseError>)
    ensures r == U.Serialise(source, destination, sourcePort, destinationPort, payload, U.UDP_HEADER_LEN + |payload|)
  {
    var buffer := new Byte[U.UDP_HEADER_LEN + |payload|](_ => 0);
    var written := U.SerialiseUdpDatagram(source, destination, sourcePort, destinationPort, payload, buffer);
    match written {
      case Err(error) =>
        r := Err(error);
      case Ok(count) =>
        assert count == buffer.Length && buffer[..] == buffer[..count];
        r := Ok(buffer[..]);
    }
  }

  method TcpBytes(segment: T.TcpSegmentToSend, source: Ipv4Addr, destination: Ipv4Addr, length: nat)
    returns (r: Result<seq<Byte>, T.TcpSerialiseError>)
    requires length == segment.SegmentLength()
    ensures r == T.Serialise(segment, source, destination, length)
  {
    var buffer := new Byte[length](_ => 0);
    var written := T.WriteTo(segment, source, destination, buffer);
    match written {
      case Err(error) =>
        r := Err(error);
      case Ok(count) =>
        assert count == buffer.Length && buffer[..] == buffer[..count];
        r := Ok(buffer[..]);
    }
  }

  class NetworkInterface {
    const macAddress: MacAddress
    const ipv4Address: Ipv4Addr
    var nextIpv4Identification: U16
    const arpResolver: R.ArpResolver
    const tcpListener: L.TcpListener

    function State(): InterfaceState
      reads this, arpResolver, arpResolver.cache, tcpListener
    {
      InterfaceState(macAddress, ipv4Address, nextIpv4Identification, arpResolver.State(), tcpListener.State())
    }

    constructor WithArpConfig(macAddress: MacAddress, ipv4Address: Ipv4Addr, cacheCapacity: nat, cacheTtl: nat,
                              retryInterval: nat, maxAttempts: nat, lastInstant: nat)
      ensures fresh(arpResolver) && fresh(arpResolver.cache) && fresh(tcpListener)
      ensures State() == Initial(macAddress, ipv4Address, cacheCapacity, cacheTtl, retryInterval, maxAttempts,
          lastInstant)
    {
      var cache := new C.ArpCache(cacheCapacity, cacheTtl);
      this.macAddress := macAddress;
      this.ipv4Address := ipv4Address;
      this.nextIpv4Identification := 0;
      this.arpResolver := new R.ArpResolver(macAddress, ipv4Address, cache, retryInterval, maxAttempts, lastInstant);
      this.tcpListener := new L.TcpListener(
        ipv4Address, TCP_ECHO_PORT, DEFAULT_TCP_CONNECTION_CAPACITY, DEFAULT_TCP_INITIAL_SEQUENCE);
    }

    method BuildIpv4Reply(ethernet: E.EthernetFrame, request: P.Ipv4Packet, protocol: P.Ipv4Protocol,
        payload: seq<Byte>)
      returns (r: Outcome)
      modifies this`nextIpv4Identification
      ensures (State(), r) == Ipv4Reply(old(State()), ethernet, request, protocol, payload)
    {
      var identification := nextIpv4Identification;
      var ipv4Reply := P.Ipv4Packet(
        request.dscp, request.ecn, identification, DEFAULT_IPV4_TTL, protocol, false, false, 0,
        ipv4Address, request.source, [], payload, []);
      var ipv4Bytes := Ipv4Bytes(ipv4Reply, P.IPV4_MIN_HEADER_LEN + |payload|);
      if ipv4Bytes.Err? {
        return Err(Ipv4Serialise(ipv4Bytes.error));
      }
      var ethernetReply := E.EthernetFrame(ethernet.sourceMac, macAddress, E.Ipv4, ipv4Bytes.value);
      var output := EthernetBytes(ethernetReply, E.ETHERNET_HEADER_LEN + |ipv4Bytes.value|);
      match output {
        case Err(error) =>
          r := Err(Serialise(error));
        case Ok(bytes) =>
          nextIpv4Identification := WrappingAdd16(identification, 1);
          r := Ok(Some(bytes));
      }
    }

    method ProcessIcmpPacket(ethernet: E.EthernetFrame, ipv4: P.Ipv4Packet) returns (r: Outcome)
      modifies this`nextIpv4Identification
      ensures (State(), r) == ProcessIcmp(old(State()), ethernet, ipv4)
    {
      var request := I.Parse(ipv4.payload);
      if request.Err? {
        return Err(IcmpError(request.error));
      }
      var reply := I.BuildEchoReply(request.value);
      if reply.None? {
        return Ok(None);
      }
      var icmpBytes := IcmpBytes(reply.value, |ipv4.payload|);
      match icmpBytes {
        case Err(error) => r := Err(Serialise(error));
        case Ok(bytes) => r := BuildIpv4Reply(ethernet, ipv4, P.Icmp, bytes);
      }
    }

    method ProcessUdpDatagram(ethernet: E.EthernetFrame, ipv4: P.Ipv4Packet) returns (r: Outcome)
      modifies this`nextIpv4Identification
      ensures (State(), r) == ProcessUdp(old(State()), ethernet, ipv4)
    {
      var valid := U.Validate(ipv4.source, ipv4.destination, ipv4.payload);
      if valid.Err? {
        return Err(UdpError(valid.error));
      }
      var parsed := U.Parse(ipv4.payload);
      if parsed.Err? {
        return Err(UdpError(parsed.error));
      }
      var request := parsed.value;
      if request.destinationPort != UDP_ECHO_PORT || request.sourcePort == 0 {
        return Ok(None);
      }
      var udpBytes := UdpBytes(ipv4Address, ipv4.source, UDP_ECHO_PORT, request.sourcePort, request.payload);
      match udpBytes {
        case Err(error) => r := Err(UdpSerialise(error));
        case Ok(bytes) => r := BuildIpv4Reply(ethernet, ipv4, P.Udp, bytes);
      }
    }

    method ProcessTcpSegment(ethernet: E.EthernetFrame, ipv4: P.Ipv4Packet) returns (r: Outcome)
      modifies this`nextIpv4Identification, tcpListener
      ensures (State(), r) == ProcessTcp(old(State()), ethernet, ipv4)
    {
      var valid := T.Validate(ipv4.source, ipv4.destination, ipv4.payload);
      if valid.Err? {
        return Err(TcpError(valid.error));
      }
      var request := T.Parse(ipv4.payload);
      if request.Err? {
        return Err(TcpError(request.error));
      }
      var action := tcpListener.ReceiveSegment(ipv4.source, request.value);
      if action.NoReply? {
        return Ok(None);
      }
      var tcpBytes := TcpBytes(SynAckSegment(action.reply), ipv4Address, ipv4.source, T.TCP_MIN_HEADER_LEN);
      match tcpBytes {
        case Err(error) => r := Err(TcpSerialise(error));
        case Ok(bytes) => r := BuildIpv4Reply(ethernet, ipv4, P.Tcp, bytes);
      }
    }

    method ProcessIpv4Frame(ethernet: E.EthernetFrame) returns (r: Outcome)
      modifies this`nextIpv4Identification, tcpListener
      ensures (State(), r) == ProcessIpv4(old(State()), ethernet)
    {
      var parsed := P.Parse(ethernet.payload);
      if parsed.Err? {
        return Err(Ipv4Error(parsed.error));
      }
      var ipv4 := parsed.value;
      if ipv4.destination != ipv4Address {
        return Ok(None);
      }
      if ipv4.moreFragments || ipv4.fragmentOffset != 0 {
        return Ok(None);
      }
      match ipv4.protocol {
        case Icmp => r := ProcessIcmpPacket(ethernet, ipv4);
        case Udp => r := ProcessUdpDatagram(ethernet, ipv4);
        case Tcp => r := ProcessTcpSegment(ethernet, ipv4);
        case Unknown(_) => r := Ok(None);
      }
    }

    method ProcessArpFrame(ethernet: E.EthernetFrame, now: nat) returns (r: Outcome)
      modifies arpResolver, arpResolver.cache
      ensures (State(), r) == ProcessArp(old(State()), ethernet, now)
    {
      var request := A.Parse(ethernet.payload);
      if request.Err? {
        return Err(ArpError(request.error));
      }
      var _ := arpResolver.Observe(request.value, now);
      var reply := A.BuildReply(request.value, macAddress, ipv4Address);
      if reply.None? {
        return Ok(None);
      }
      var arpBytes := ArpBytes(reply.value);
      match arpBytes {
        case Err(error) =>
          r := Err(Serialise(error));
        case Ok(bytes) =>
          var ethernetReply := E.EthernetFrame(reply.value.targetMac, macAddress, E.Arp, bytes);
          var output := EthernetBytes(ethernetReply, E.ETHERNET_HEADER_LEN + |bytes|);
          match output {
            case Err(error) => r := Err(Serialise(error));
            case Ok(frame) => r := Ok(Some(frame));
          }
      }
    }

    method ProcessFrameAt(input: seq<Byte>, now: nat) returns (r: Outcome)
      modifies this`nextIpv4Identification, arpResolver, arpResolver.cache, tcpListener
      ensures (State(), r) == ProcessFrame(old(State()), input, now)
    {
      var parsed := E.Parse(input);
      if parsed.Err? {
        return Err(EthernetError(parsed.error));
      }
      var ethernet := parsed.value;
      match ethernet.etherType {
        case Ipv4 =>
          if ethernet.destinationMac == macAddress {
            r := ProcessIpv4Frame(ethernet);
          } else {
            r := Ok(None);
          }
        case Arp =>
          if ethernet.destinationMac == macAddress || ethernet.destinationMac == BROADCAST {
            r := ProcessArpFrame(ethernet, now);
          } else {
            r := Ok(None);
          }
        case _ => r := Ok(None);
      }
    }

    method CachedMac(ip: Ipv4Addr, now: nat) returns (mac: Option<MacAddress>)
      modifies arpResolver, arpResolver.cache
      ensures mac == C.Found(C.AfterPurge(old(State()).resolver.cache, now).entries, ip)
      ensures var before := old(State());
              State() == before.(resolver := before.resolver.(cache := C.AfterPurge(before.resolver.cache, now)))
    {
      mac := arpResolver.CachedMac(ip, now);
    }
  }
}
