/** Whole runs of the interface: its parts see exactly the segments and packets meant for them. */
module InterfaceHistory {
  import opened NetTypes
  import opened Interface
  import opened InterfaceReplies
  import E = Ethernet
  import P = Ipv4
  import I = Icmp
  import U = Udp
  import T = Tcp
  import A = Arp
  import C = Cache
  import R = Resolver
  import L = Listener
  import CH = CacheHistory
  import LH = ListenerHistory

  datatype Input = Input(frame: seq<Byte>, now: nat)

  /** The segment that a frame delivers to a station: addressed to it, unfragmented and valid. */
  function DeliveredSegment(mac: MacAddress, ip: Ipv4Addr, frame: seq<Byte>): Option<LH.Arrival> {
    match E.Parse(frame)
    case Err(_) => None
    case Ok(ethernet) =>
      if ethernet.etherType != E.Ipv4 || ethernet.destinationMac != mac then None
      else
        match P.Parse(ethernet.payload)
        case Err(_) => None
        case Ok(p) =>
          if p.destination == ip && !p.moreFragments && p.fragmentOffset == 0 && p.protocol == P.Tcp
             && T.Validate(p.source, p.destination, p.payload).Ok?
          then Some(LH.Arrival(p.source, T.Parse(p.payload).value)) else None
  }

  /** The ARP packet that a frame delivers to a station, directly or by broadcast. */
  function DeliveredArp(mac: MacAddress, frame: seq<Byte>): Option<A.ArpPacket> {
    match E.Parse(frame)
    case Err(_) => None
    case Ok(ethernet) =>
      if ethernet.etherType == E.Arp && (ethernet.destinationMac == mac || ethernet.destinationMac == BROADCAST)
      then (match A.Parse(ethernet.payload) case Err(_) => None case Ok(p) => Some(p))
      else None
  }

  predicate IsIpv4Answer(r: Outcome) {
    r.Ok? && r.value.Some? && E.Parse(r.value.value).Ok? && E.Parse(r.value.value).value.etherType == E.Ipv4
  }

  /** One frame: each part of the state moves exactly as the delivered segment or packet says. */
  ghost predicate Moves(s: InterfaceState, input: Input, t: InterfaceState, r: Outcome) {
    && t.macAddress == s.macAddress && t.ipv4Address == s.ipv4Address
    && t.listener == (match DeliveredSegment(s.macAddress, s.ipv4Address, input.frame)
                      case None => s.listener
                      case Some(arrival) => L.Receive(s.listener, arrival.remoteIp, arrival.segment).0)
    && t.resolver == (match DeliveredArp(s.macAddress, input.frame)
                      case None => s.resolver
                      case Some(packet) => R.AfterObserve(s.resolver, packet, input.now))
    && t.nextIpv4Identification ==
       (if IsIpv4Answer(r) then WrappingAdd16(s.nextIpv4Identification, 1) else s.nextIpv4Identification)
  }

  ghost predicate MovesAsDelivered(s: InterfaceState, input: Input) {
    var (t, r) := ProcessFrame(s, input.frame, input.now);
    Moves(s, input, t, r)
  }

  /** What a packet for this interface delivers. */
  lemma ForUsDelivers(s: InterfaceState, frame: seq<Byte>, from: MacAddress, packet: P.Ipv4Packet)
    requires IsForUs(s, frame, from, packet)
    ensures DeliveredArp(s.macAddress, frame) == None
    ensures DeliveredSegment(s.macAddress, s.ipv4Address, frame) ==
            if packet.protocol == P.Tcp && T.Validate(packet.source, packet.destination, packet.payload).Ok?
            then Some(LH.Arrival(packet.source, T.Parse(packet.payload).value)) else None
  {
  }

  lemma IcmpMovesAsDelivered(s: InterfaceState, input: Input, from: MacAddress, packet: P.Ipv4Packet)
    requires IsForUs(s, input.frame, from, packet) && packet.protocol == P.Icmp
    ensures MovesAsDelivered(s, input)
  {
    Dispatch(s, input.frame, input.now, from, packet);
    ForUsDelivers(s, input.frame, from, packet);
    var request := I.Parse(packet.payload);
    if request.Ok? && request.value.EchoRequest? {
      EchoRequestIsAnswered(s, input.frame, input.now, from, packet, request.value.echo);
    }
  }

  lemma UdpMovesAsDelivered(s: InterfaceState, input: Input, from: MacAddress, packet: P.Ipv4Packet)
    requires IsForUs(s, input.frame, from, packet) && packet.protocol == P.Udp
    ensures MovesAsDelivered(s, input)
  {
    Dispatch(s, input.frame, input.now, from, packet);
    ForUsDelivers(s, input.frame, from, packet);
    if U.Validate(packet.source, packet.destination, packet.payload).Ok? {
      var d := U.Parse(packet.payload).value;
      if d.destinationPort == UDP_ECHO_PORT && d.sourcePort != 0 {
        DatagramIsEchoed(s, input.frame, input.now, from, packet);
      }
    }
  }

  lemma TcpMovesAsDelivered(s: InterfaceState, input: Input, from: MacAddress, packet: P.Ipv4Packet)
    requires IsForUs(s, input.frame, from, packet) && packet.protocol == P.Tcp
    ensures MovesAsDelivered(s, input)
  {
    ForUsDelivers(s, input.frame, from, packet);
    if T.Validate(packet.source, packet.destination, packet.payload).Ok? {
      var (listener, action) := L.Receive(s.listener, packet.source, T.Parse(packet.payload).value);
      match action {
        case SendSynAck(synAck) => SynAckIsSent(s, input.frame, input.now, from, packet, listener, synAck);
        case NoReply => SilentSegment(s, input.frame, input.now, from, packet, listener);
      }
    } else {
      Dispatch(s, input.frame, input.now, from, packet);
    }
  }

  lemma Ipv4MovesAsDelivered(s: InterfaceState, input: Input)
    requires E.Parse(input.frame).Ok? && E.Parse(input.frame).value.etherType == E.Ipv4
    requires E.Parse(input.frame).value.destinationMac == s.macAddress
    ensures MovesAsDelivered(s, input)
  {
    var ethernet := E.Parse(input.frame).value;
    if P.Parse(ethernet.payload).Ok? {
      var packet := P.Parse(ethernet.payload).value;
      if IsForUs(s, input.frame, ethernet.sourceMac, packet) {
        match packet.protocol {
          case Icmp => IcmpMovesAsDelivered(s, input, ethernet.sourceMac, packet);
          case Udp => UdpMovesAsDelivered(s, input, ethernet.sourceMac, packet);
          case Tcp => TcpMovesAsDelivered(s, input, ethernet.sourceMac, packet);
          case Unknown(_) => Dispatch(s, input.frame, input.now, ethernet.sourceMac, packet);
        }
      }
    }
  }

  lemma EveryFrameMovesAsDelivered(s: InterfaceState, input: Input)
    ensures MovesAsDelivered(s, input)
  {
    if E.Parse(input.frame).Ok? {
      var ethernet := E.Parse(input.frame).value;
      if ethernet.etherType == E.Ipv4 && ethernet.destinationMac == s.macAddress {
        Ipv4MovesAsDelivered(s, input);
      } else if ethernet.etherType == E.Arp && A.Parse(ethernet.payload).Ok?
                && (ethernet.destinationMac == s.macAddress || ethernet.destinationMac == BROADCAST) {
        ArpIsAnswered(s, input.frame, input.now, ethernet.sourceMac, ethernet.destinationMac,
            A.Parse(ethernet.payload).value);
      }
    }
  }

  /** The calls that change an interface: a received frame, or a question to its cache. */
  datatype Call = Process(input: Input) | AskMac(ip: Ipv4Addr, now: nat)

  function After(s: InterfaceState, call: Call): InterfaceState {
    match call
    case Process(input) => ProcessFrame(s, input.frame, input.now).0
    case AskMac(_, now) => s.(resolver := s.resolver.(cache := C.AfterPurge(s.resolver.cache, now)))
  }

  function Run(s: InterfaceState, calls: seq<Call>): InterfaceState
    decreases |calls|
  {
    if calls == [] then s
    else After(Run(s, calls[..|calls| - 1]), calls[|calls| - 1])
  }

  /** What a call means for the listener, if anything. */
  function SegmentOf(mac: MacAddress, ip: Ipv4Addr, call: Call): Option<LH.Arrival> {
    match call
    case Process(input) => DeliveredSegment(mac, ip, input.frame)
    case AskMac(_, _) => None
  }

  /** What a call means for the cache, if anything. */
  function CacheOpOf(mac: MacAddress, call: Call): Option<CH.CacheOp> {
    match call
    case AskMac(ip, now) => Some(CH.Lookup(ip, now))
    case Process(input) =>
      match DeliveredArp(mac, input.frame)
      case None => None
      case Some(p) => if p.operation.Unknown? then None else Some(CH.Learn(p.senderIp, p.senderMac, input.now))
  }

  predicate SendsIpv4(s: InterfaceState, call: Call) {
    call.Process? && IsIpv4Answer(ProcessFrame(s, call.input.frame, call.input.now).1)
  }

  /** The segments delivered by a run, in order. */
  function Segments(mac: MacAddress, ip: Ipv4Addr, calls: seq<Call>): seq<LH.Arrival>
    decreases |calls|
  {
    if calls == [] then []
    else
      Segments(mac, ip, calls[..|calls| - 1])
      + match SegmentOf(mac, ip, calls[|calls| - 1]) case None => [] case Some(arrival) => [arrival]
  }

  /** The cache operations of a run, in order. */
  function CacheOps(mac: MacAddress, calls: seq<Call>): seq<CH.CacheOp>
    decreases |calls|
  {
    if calls == [] then []
    else
      CacheOps(mac, calls[..|calls| - 1])
      + match CacheOpOf(mac, calls[|calls| - 1]) case None => [] case Some(op) => [op]
  }

  /** How many IPv4 packets a run sends. */
  function Ipv4Sent(s: InterfaceState, calls: seq<Call>): nat
    decreases |calls|
  {
    if calls == [] then 0
    else
      var prefix := calls[..|calls| - 1];
      Ipv4Sent(s, prefix) + if SendsIpv4(Run(s, prefix), calls[|calls| - 1]) then 1 else 0
  }

  /** One call: each part of the state moves exactly as the call means for it. */
  ghost predicate CallMoves(s: InterfaceState, call: Call, t: InterfaceState, sent: bool) {
    && t.macAddress == s.macAddress && t.ipv4Address == s.ipv4Address
    && t.listener == (match SegmentOf(s.macAddress, s.ipv4Address, call)
                      case None => s.listener
                      case Some(arrival) => L.Receive(s.listener, arrival.remoteIp, arrival.segment).0)
    && t.resolver.cache == (match CacheOpOf(s.macAddress, call)
                            case None => s.resolver.cache
                            case Some(op) => CH.Apply(s.resolver.cache, op))
    && t.resolver.pending.Keys <= s.resolver.pending.Keys
    && t.nextIpv4Identification ==
       (if sent then WrappingAdd16(s.nextIpv4Identification, 1) else s.nextIpv4Identification)
  }

  lemma EveryCallMoves(s: InterfaceState, call: Call)
    ensures CallMoves(s, call, After(s, call), SendsIpv4(s, call))
  {
    if call.Process? {
      EveryFrameMovesAsDelivered(s, call.input);
    }
  }

  lemma RunStep(s: InterfaceState, calls: seq<Call>)
    requires calls != []
    ensures var prefix, call := calls[..|calls| - 1], calls[|calls| - 1];
            exists sent: bool ::
              && CallMoves(Run(s, prefix), call, Run(s, calls), sent)
              && Ipv4Sent(s, calls) == Ipv4Sent(s, prefix) + if sent then 1 else 0
  {
    var prefix, call := calls[..|calls| - 1], calls[|calls| - 1];
    EveryCallMoves(Run(s, prefix), call);
    assert CallMoves(Run(s, prefix), call, Run(s, calls), SendsIpv4(Run(s, prefix), call));
  }

  /** The parameters of the listener inside a new interface. */
  function ListenerConfig(ip: Ipv4Addr): LH.Config {
    LH.Config(ip, 9000, 64, 0x1234_5678)
  }

  /** What a new interface has in common, whatever its addresses and ARP settings. */
  predicate IsNew(s: InterfaceState) {
    && s.nextIpv4Identification == 0
    && s.listener == ListenerConfig(s.ipv4Address).Initial()
    && s.resolver.cache.entries == map[] && s.resolver.pending == map[]
  }

  lemma InitialIsNew(mac: MacAddress, ip: Ipv4Addr, capacity: nat, ttl: nat, retry: nat, attempts: nat,
      lastInstant: nat)
    ensures var s := Initial(mac, ip, capacity, ttl, retry, attempts, lastInstant);
            && IsNew(s) && s.macAddress == s.resolver.localMac == mac && s.ipv4Address == s.resolver.localIp == ip
            && s.resolver.cache.maxEntries == capacity && s.resolver.cache.ttl == ttl
            && s.resolver.retryInterval == retry && s.resolver.maxAttempts == attempts
            && s.resolver.lastInstant == lastInstant
  {
  }

  lemma {:induction false} RunKeepsAddresses(s: InterfaceState, calls: seq<Call>)
    ensures Run(s, calls).macAddress == s.macAddress && Run(s, calls).ipv4Address == s.ipv4Address
    decreases |calls|
  {
    if calls == [] {
    } else {
      RunKeepsAddresses(s, calls[..|calls| - 1]);
      RunStep(s, calls);
    }
  }

  /** Composition: after any run the listener is where the delivered segments alone lead it. */
  lemma {:induction false} ListenerFollowsSegments(s: InterfaceState, calls: seq<Call>)
    requires IsNew(s)
    ensures Run(s, calls).listener ==
            LH.Run(ListenerConfig(s.ipv4Address), Segments(s.macAddress, s.ipv4Address, calls))
    decreases |calls|
  {
    if calls == [] {
    } else {
      var prefix, call := calls[..|calls| - 1], calls[|calls| - 1];
      var before := Segments(s.macAddress, s.ipv4Address, prefix);
      ListenerFollowsSegments(s, prefix);
      RunKeepsAddresses(s, prefix);
      RunStep(s, calls);
      assert before + [] == before;
    }
  }

  /** Likewise the cache is where its own operations alone lead it, and nothing is ever pending. */
  lemma {:induction false} CacheFollowsOps(s: InterfaceState, calls: seq<Call>)
    requires IsNew(s)
    ensures Run(s, calls).resolver.cache ==
            CH.Run(CacheOps(s.macAddress, calls), s.resolver.cache.maxEntries, s.resolver.cache.ttl)
    ensures Run(s, calls).resolver.pending == map[]
    decreases |calls|
  {
    if calls == [] {
    } else {
      var prefix, call := calls[..|calls| - 1], calls[|calls| - 1];
      var before := CacheOps(s.macAddress, prefix);
      CacheFollowsOps(s, prefix);
      RunKeepsAddresses(s, prefix);
      RunStep(s, calls);
      assert before + [] == before;
    }
  }

  /** The field after `n` packets. */
  function IdentificationAfter(start: U16, n: nat): U16 {
    if n == 0 then start else WrappingAdd16(IdentificationAfter(start, n - 1), 1)
  }

  lemma WrapStep(x: U16, n: nat)
    ensures WrappingAdd16(WrappingAdd16(x, n), 1) == WrappingAdd16(x, n + 1)
  {
    var q, r := (x + n) / 0x1_0000, (x + n) % 0x1_0000;
    assert x + n + 1 == q * 0x1_0000 + (r + 1);
    if r == 0xffff {
      assert x + n + 1 == (q + 1) * 0x1_0000;
    }
  }

  lemma {:induction false} IdentificationClosedForm(start: U16, n: nat)
    ensures IdentificationAfter(start, n) == WrappingAdd16(start, n)
  {
    if n == 0 {
    } else {
      IdentificationClosedForm(start, n - 1);
      WrapStep(start, n - 1);
    }
  }

  lemma IdentificationExtends(start: U16, before: U16, after: U16, sentBefore: nat, sentAfter: nat, sent: bool)
    requires before == IdentificationAfter(start, sentBefore)
    requires after == (if sent then WrappingAdd16(before, 1) else before)
    requires sentAfter == sentBefore + if sent then 1 else 0
    ensures after == IdentificationAfter(start, sentAfter)
  {
  }

  lemma {:induction false} IdentificationFollowsPackets(s: InterfaceState, calls: seq<Call>)
    ensures Run(s, calls).nextIpv4Identification == IdentificationAfter(s.nextIpv4Identification, Ipv4Sent(s, calls))
    decreases |calls|
  {
    if calls == [] {
    } else {
      var prefix, call := calls[..|calls| - 1], calls[|calls| - 1];
      IdentificationFollowsPackets(s, prefix);
      RunStep(s, calls);
      var sent :|
        && CallMoves(Run(s, prefix), call, Run(s, calls), sent)
        && Ipv4Sent(s, calls) == Ipv4Sent(s, prefix) + if sent then 1 else 0;
      IdentificationExtends(
        s.nextIpv4Identification, Run(s, prefix).nextIpv4Identification, Run(s, calls).nextIpv4Identification,
        Ipv4Sent(s, prefix), Ipv4Sent(s, calls), sent);
    }
  }

  /** The identification field counts the IPv4 packets sent, modulo 2^16. */
  lemma IdentificationCountsPackets(s: InterfaceState, calls: seq<Call>)
    ensures Run(s, calls).nextIpv4Identification == WrappingAdd16(s.nextIpv4Identification, Ipv4Sent(s, calls))
  {
    IdentificationFollowsPackets(s, calls);
    IdentificationClosedForm(s.nextIpv4Identification, Ipv4Sent(s, calls));
  }

  /** The TCP table of an interface as a function of the frames it has received. */
  lemma TableIsFunctionOfFrames(s: InterfaceState, calls: seq<Call>)
    requires IsNew(s)
    ensures LH.TableMatches(ListenerConfig(s.ipv4Address), Segments(s.macAddress, s.ipv4Address, calls),
                            Run(s, calls).listener)
  {
    ListenerFollowsSegments(s, calls);
    LH.TableIsFunctionOfTrace(ListenerConfig(s.ipv4Address), Segments(s.macAddress, s.ipv4Address, calls));
  }

  /** The ARP cache of an interface as a function of the frames received, if lessons come by instant and address. */
  lemma CacheIsFunctionOfFrames(s: InterfaceState, calls: seq<Call>)
    requires IsNew(s) && CH.Clocked(CacheOps(s.macAddress, calls)) && CH.Ascending(CacheOps(s.macAddress, calls))
    ensures var ops := CacheOps(s.macAddress, calls);
            Run(s, calls).resolver.cache.entries ==
            CH.MostRecentLive(CH.LastLearned(ops), s.resolver.cache.maxEntries, s.resolver.cache.ttl,
                              CH.Clock(ops), CH.JustLearned(ops))
  {
    CacheFollowsOps(s, calls);
    CH.CacheIsMostRecentLive(CacheOps(s.macAddress, calls), s.resolver.cache.maxEntries, s.resolver.cache.ttl);
  }

  /** The segments of a part of a run come first among those of the run. */
  lemma {:induction false} SegmentsGrow(mac: MacAddress, ip: Ipv4Addr, calls: seq<Call>, i: nat)
    requires i <= |calls|
    ensures Segments(mac, ip, calls[..i]) <= Segments(mac, ip, calls)
    decreases |calls|
  {
    if i == |calls| {
      assert calls[..i] == calls;
    } else {
      var prefix := calls[..|calls| - 1];
      assert prefix[..i] == calls[..i];
      SegmentsGrow(mac, ip, prefix, i);
    }
  }

  /** The place in the trace of the segment that a call delivers. */
  lemma SegmentPlace(mac: MacAddress, ip: Ipv4Addr, calls: seq<Call>, i: nat)
    requires i < |calls| && SegmentOf(mac, ip, calls[i]).Some?
    ensures var before, trace := Segments(mac, ip, calls[..i]), Segments(mac, ip, calls);
            |before| < |trace| && trace[..|before|] == before
            && trace[|before|] == SegmentOf(mac, ip, calls[i]).value
  {
    var upTo := calls[..i + 1];
    assert upTo[..i] == calls[..i];
    SegmentsGrow(mac, ip, calls, i + 1);
  }

  /** The outcome is a frame that opens as this SYN-ACK to this address. */
  ghost predicate IsSynAckTo(s: InterfaceState, r: Outcome, remoteIp: Ipv4Addr, synAck: L.SynAck) {
    r.Ok? && r.value.Some?
    && exists to, answer ::
         && Carries(r.value.value, s.macAddress, to, answer)
         && answer.source == s.ipv4Address && answer.destination == remoteIp
         && IsSynAck(answer.source, answer.destination, answer.payload, synAck)
  }

  /** One delivered segment: the outcome is what the listener decides. */
  lemma SegmentOutcome(s: InterfaceState, input: Input)
    requires DeliveredSegment(s.macAddress, s.ipv4Address, input.frame).Some?
    ensures var arrival := DeliveredSegment(s.macAddress, s.ipv4Address, input.frame).value;
            var r := ProcessFrame(s, input.frame, input.now).1;
            match L.Receive(s.listener, arrival.remoteIp, arrival.segment).1
            case NoReply => r == Ok(None)
            case SendSynAck(synAck) => IsSynAckTo(s, r, arrival.remoteIp, synAck)
  {
    var ethernet := E.Parse(input.frame).value;
    var packet := P.Parse(ethernet.payload).value;
    assert IsForUs(s, input.frame, ethernet.sourceMac, packet);
    var (listener, action) := L.Receive(s.listener, packet.source, T.Parse(packet.payload).value);
    match action {
      case NoReply => SilentSegment(s, input.frame, input.now, ethernet.sourceMac, packet, listener);
      case SendSynAck(synAck) =>
        SynAckIsSent(s, input.frame, input.now, ethernet.sourceMac, packet, listener, synAck);
    }
  }

  /** The outcome of the i-th call of a run, if it is a frame. */
  function OutcomeAt(s: InterfaceState, calls: seq<Call>, i: nat): Outcome
    requires i < |calls| && calls[i].Process?
  {
    ProcessFrame(Run(s, calls[..i]), calls[i].input.frame, calls[i].input.now).1
  }

  /**
   The TCP replies of an interface as a function of the frames it has received: the i-th call, if it delivers a
   segment, draws a SYN-ACK exactly if that segment is answerable in the delivered trace, with the content that
   the trace determines, and nothing otherwise.
   */
  lemma RepliesAreFunctionOfFrames(s: InterfaceState, calls: seq<Call>, i: nat)
    requires IsNew(s) && i < |calls| && SegmentOf(s.macAddress, s.ipv4Address, calls[i]).Some?
    ensures var c, trace := ListenerConfig(s.ipv4Address), Segments(s.macAddress, s.ipv4Address, calls);
            var k := |Segments(s.macAddress, s.ipv4Address, calls[..i])|;
            && k < |trace|
            && (OutcomeAt(s, calls, i) == Ok(None) <==> forall n: nat :: !LH.IsAnswerableSyn(c, trace, k, n))
            && forall n: nat | LH.IsAnswerableSyn(c, trace, k, n) ::
                 IsSynAckTo(s, OutcomeAt(s, calls, i), trace[k].remoteIp, LH.AnswerOf(c, trace[k], n).reply)
  {
    var c, trace := ListenerConfig(s.ipv4Address), Segments(s.macAddress, s.ipv4Address, calls);
    var k := |Segments(s.macAddress, s.ipv4Address, calls[..i])|;
    SegmentPlace(s.macAddress, s.ipv4Address, calls, i);
    ListenerFollowsSegments(s, calls[..i]);
    RunKeepsAddresses(s, calls[..i]);
    SegmentOutcome(Run(s, calls[..i]), calls[i].input);
    LH.RepliesAreFunctionOfTrace(c, trace, k);
  }

  /** A frame opens as one SYN-ACK only. */
  lemma SynAckIsUnique(s: InterfaceState, r: Outcome, remoteIp: Ipv4Addr, x: L.SynAck, y: L.SynAck)
    requires IsSynAckTo(s, r, remoteIp, x) && IsSynAckTo(s, r, remoteIp, y)
    ensures x == y
  {
  }

  /** A SYN-ACK that a call draws is the action of the listener at the place of its segment. */
  lemma SentIsAction(s: InterfaceState, calls: seq<Call>, i: nat, synAck: L.SynAck)
    requires IsNew(s) && i < |calls| && SegmentOf(s.macAddress, s.ipv4Address, calls[i]).Some?
    requires IsSynAckTo(s, OutcomeAt(s, calls, i), SegmentOf(s.macAddress, s.ipv4Address, calls[i]).value.remoteIp,
                        synAck)
    ensures var trace := Segments(s.macAddress, s.ipv4Address, calls);
            var k := |Segments(s.macAddress, s.ipv4Address, calls[..i])|;
            k < |trace| && LH.ActionAt(ListenerConfig(s.ipv4Address), trace, k) == L.SendSynAck(synAck)
  {
    SegmentPlace(s.macAddress, s.ipv4Address, calls, i);
    ListenerFollowsSegments(s, calls[..i]);
    RunKeepsAddresses(s, calls[..i]);
    SegmentOutcome(Run(s, calls[..i]), calls[i].input);
    var x := SegmentOf(s.macAddress, s.ipv4Address, calls[i]).value;
    match L.Receive(Run(s, calls[..i]).listener, x.remoteIp, x.segment).1 {
      case NoReply =>
      case SendSynAck(sent) => SynAckIsUnique(s, OutcomeAt(s, calls, i), x.remoteIp, sent, synAck);
    }
  }

  /** The segments of two calls are in the trace in the order of the calls. */
  lemma PlacesInOrder(mac: MacAddress, ip: Ipv4Addr, calls: seq<Call>, i: nat, j: nat)
    requires i < j < |calls| && SegmentOf(mac, ip, calls[i]).Some? && SegmentOf(mac, ip, calls[j]).Some?
    ensures var k, l := |Segments(mac, ip, calls[..i])|, |Segments(mac, ip, calls[..j])|;
            var trace := Segments(mac, ip, calls);
            && k < l < |trace|
            && trace[k] == SegmentOf(mac, ip, calls[i]).value && trace[l] == SegmentOf(mac, ip, calls[j]).value
  {
    SegmentPlace(mac, ip, calls, i);
    SegmentPlace(mac, ip, calls, j);
    EarlierPlace(mac, ip, calls, i, j);
  }

  lemma EarlierPlace(mac: MacAddress, ip: Ipv4Addr, calls: seq<Call>, i: nat, j: nat)
    requires i < j <= |calls| && SegmentOf(mac, ip, calls[i]).Some?
    ensures |Segments(mac, ip, calls[..i])| < |Segments(mac, ip, calls[..j])|
  {
    var prefix := calls[..j];
    assert prefix[..i] == calls[..i] && prefix[i] == calls[i];
    SegmentPlace(mac, ip, prefix, i);
  }

  /**
   The handshake over frames: if the i-th call draws a frame that opens as a SYN-ACK, and a later call delivers an
   acceptable ACK that answers it, then the connection is established from then on.
   */
  lemma HandshakeOverFrames(s: InterfaceState, calls: seq<Call>, i: nat, j: nat, synAck: L.SynAck)
    requires IsNew(s) && i < j < |calls|
    requires SegmentOf(s.macAddress, s.ipv4Address, calls[i]).Some?
    requires SegmentOf(s.macAddress, s.ipv4Address, calls[j]).Some?
    requires var c := ListenerConfig(s.ipv4Address);
             var x := SegmentOf(s.macAddress, s.ipv4Address, calls[i]).value;
             var y := SegmentOf(s.macAddress, s.ipv4Address, calls[j]).value;
             && IsSynAckTo(s, OutcomeAt(s, calls, i), x.remoteIp, synAck)
             && LH.Acknowledges(c, y, synAck) && c.KeyOf(x) == c.KeyOf(y)
    ensures LH.IsEstablished(
              Run(s, calls).listener,
              ListenerConfig(s.ipv4Address).KeyOf(SegmentOf(s.macAddress, s.ipv4Address, calls[i]).value))
  {
    PlacesInOrder(s.macAddress, s.ipv4Address, calls, i, j);
    SentIsAction(s, calls, i, synAck);
    ListenerFollowsSegments(s, calls);
    LH.HandshakeCompletes(
      ListenerConfig(s.ipv4Address), Segments(s.macAddress, s.ipv4Address, calls),
      |Segments(s.macAddress, s.ipv4Address, calls[..i])|, |Segments(s.macAddress, s.ipv4Address, calls[..j])|);
  }

  /** A plain SYN of an unknown remote, to a new interface after any run that leaves room, draws the SYN-ACK. */
  lemma NewSynFrameIsAnswered(s: InterfaceState, calls: seq<Call>, input: Input)
    requires IsNew(s) && DeliveredSegment(s.macAddress, s.ipv4Address, input.frame).Some?
    requires var a, table := DeliveredSegment(s.macAddress, s.ipv4Address, input.frame).value, Run(s, calls).listener;
             LH.IsNewSyn(ListenerConfig(s.ipv4Address), table, a) && |table.connections| < 64
    ensures var a := DeliveredSegment(s.macAddress, s.ipv4Address, input.frame).value;
            var c, n := ListenerConfig(s.ipv4Address), |Run(s, calls).listener.connections|;
            IsSynAckTo(s, ProcessFrame(Run(s, calls), input.frame, input.now).1, a.remoteIp, LH.AnswerOf(c, a, n).reply)
  {
    RunKeepsAddresses(s, calls);
    ListenerFollowsSegments(s, calls);
    SegmentOutcome(Run(s, calls), input);
    LH.NewSynIsAnswered(ListenerConfig(s.ipv4Address), Segments(s.macAddress, s.ipv4Address, calls),
                        DeliveredSegment(s.macAddress, s.ipv4Address, input.frame).value);
  }
}
