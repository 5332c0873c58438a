/** The passive-open TCP listener: a table of handshakes (sections 3.4 and 3.5 of RFC 9293). */
module Listener {
  import opened NetTypes
  import opened Tcp

  const DEFAULT_TCP_RECEIVE_WINDOW: U16 := 64240

  datatype TcpConnectionKey = TcpConnectionKey(localIp: Ipv4Addr, localPort: U16, remoteIp: Ipv4Addr, remotePort: U16)

  datatype TcpConnectionState = SynReceived | Established

  /** ISS, SND.UNA, SND.NXT, IRS and RCV.NXT of a connection. */
  datatype TcpConnection = TcpConnection(
    state: TcpConnectionState,
    initialSendSequence: U32,
    sendUnacknowledged: U32,
    sendNext: U32,
    initialReceiveSequence: U32,
    receiveNext: U32)

  datatype SynAck = SynAck(sourcePort: U16, destinationPort: U16, sequenceNumber: U32, acknowledgementNumber: U32,
      windowSize: U16)

  datatype TcpAction = SendSynAck(reply: SynAck) | NoReply

  datatype ListenerState = ListenerState(
    localIp: Ipv4Addr,
    localPort: U16,
    capacity: nat,
    nextInitialSequence: U32,
    connections: map<TcpConnectionKey, TcpConnection>)
  {
    function KeyOf(remoteIp: Ipv4Addr, segment: TcpSegment): TcpConnectionKey {
      TcpConnectionKey(localIp, localPort, remoteIp, segment.sourcePort)
    }

    predicate IsAddressed(segment: TcpSegment) {
      segment.destinationPort == localPort && segment.sourcePort != 0
    }
  }

  predicate AcceptsInitialSyn(segment: TcpSegment) {
    && Contains(segment.flags, SYN)
    && !Contains(segment.flags, ACK)
    && !Contains(segment.flags, RST)
    && !Contains(segment.flags, FIN)
    && !Contains(segment.flags, PSH)
    && !Contains(segment.flags, URG)
    && segment.payload == []
  }

  predicate AcceptsFinalAck(segment: TcpSegment) {
    && Contains(segment.flags, ACK)
    && !Contains(segment.flags, SYN)
    && !Contains(segment.flags, RST)
    && !Contains(segment.flags, FIN)
    && !Contains(segment.flags, PSH)
    && !Contains(segment.flags, URG)
    && segment.payload == []
  }

  function SynAckOf(key: TcpConnectionKey, connection: TcpConnection): SynAck {
    SynAck(key.localPort, key.remotePort, connection.initialSendSequence, connection.receiveNext,
        DEFAULT_TCP_RECEIVE_WINDOW)
  }

  function NewConnection(iss: U32, irs: U32): TcpConnection {
    TcpConnection(SynReceived, iss, iss, WrappingAdd32(iss, 1), irs, WrappingAdd32(irs, 1))
  }

  function AfterInitialSyn(s: ListenerState, key: TcpConnectionKey, segment: TcpSegment): (ListenerState, TcpAction) {
    if key in s.connections then
      var connection := s.connections[key];
      if connection.state == SynReceived && segment.sequenceNumber == connection.initialReceiveSequence
      then (s, SendSynAck(SynAckOf(key, connection)))
      else (s, NoReply)
    else if |s.connections| >= s.capacity then (s, NoReply)
    else
      var connection := NewConnection(s.nextInitialSequence, segment.sequenceNumber);
      (s.(nextInitialSequence := WrappingAdd32(s.nextInitialSequence, 1),
          connections := s.connections[key := connection]),
       SendSynAck(SynAckOf(key, connection)))
  }

  function AfterFinalAck(s: ListenerState, key: TcpConnectionKey, segment: TcpSegment): ListenerState {
    if key !in s.connections then s
    else
      var connection := s.connections[key];
      if connection.state != SynReceived || segment.sequenceNumber != connection.receiveNext
         || segment.acknowledgementNumber != connection.sendNext
      then s
      else
        var completed := connection.(sendUnacknowledged := segment.acknowledgementNumber, state := Established);
        s.(connections := s.connections[key := completed])
  }

  function Receive(s: ListenerState, remoteIp: Ipv4Addr, segment: TcpSegment): (ListenerState, TcpAction) {
    if !s.IsAddressed(segment) then (s, NoReply)
    else
      var key := s.KeyOf(remoteIp, segment);
      if AcceptsInitialSyn(segment) then AfterInitialSyn(s, key, segment)
      else if AcceptsFinalAck(segment) then (AfterFinalAck(s, key, segment), NoReply)
      else (s, NoReply)
  }

  class TcpListener {
    const localIp: Ipv4Addr
    const localPort: U16
    const capacity: nat
    var nextInitialSequence: U32
    var connections: map<TcpConnectionKey, TcpConnection>

    function State(): ListenerState
      reads this
    {
      ListenerState(localIp, localPort, capacity, nextInitialSequence, connections)
    }

    constructor (localIp: Ipv4Addr, localPort: U16, capacity: nat, initialSequence: U32)
      ensures State() == ListenerState(localIp, localPort, capacity, initialSequence, map[])
    {
      this.localIp := localIp;
      this.localPort := localPort;
      this.capacity := capacity;
      this.nextInitialSequence := initialSequence;
      this.connections := map[];
    }

    method ReceiveSegment(remoteIp: Ipv4Addr, segment: TcpSegment) returns (action: TcpAction)
      modifies this
      ensures (State(), action) == Receive(old(State()), remoteIp, segment)
    {
      if segment.destinationPort != localPort || segment.sourcePort == 0 {
        return NoReply;
      }
      var key := TcpConnectionKey(localIp, localPort, remoteIp, segment.sourcePort);
      if AcceptsInitialSyn(segment) {
        action := ReceiveInitialSyn(key, segment);
        return;
      }
      if AcceptsFinalAck(segment) {
        CompleteHandshake(key, segment);
      }
      action := NoReply;
    }

    method ReceiveInitialSyn(key: TcpConnectionKey, segment: TcpSegment) returns (action: TcpAction)
      modifies this
      ensures (State(), action) == AfterInitialSyn(old(State()), key, segment)
    {
      if key in connections {
        var connection := connections[key];
        if connection.state == SynReceived && segment.sequenceNumber == connection.initialReceiveSequence {
          return SendSynAck(SynAckOf(key, connection));
        }
        return NoReply;
      }
      if |connections| >= capacity {
        return NoReply;
      }
      var initialSendSequence := nextInitialSequence;
      nextInitialSequence := WrappingAdd32(nextInitialSequence, 1);
      var connection := TcpConnection(
        SynReceived,
        initialSendSequence,
        initialSendSequence,
        WrappingAdd32(initialSendSequence, 1),
        segment.sequenceNumber,
        WrappingAdd32(segment.sequenceNumber, 1));
      connections := connections[key := connection];
      action := SendSynAck(SynAckOf(key, connection));
    }

    method CompleteHandshake(key: TcpConnectionKey, segment: TcpSegment)
      modifies this
      ensures State() == AfterFinalAck(old(State()), key, segment)
    {
      if key !in connections {
        return;
      }
      var connection := connections[key];
      if connection.state != SynReceived || segment.sequenceNumber != connection.receiveNext
         || segment.acknowledgementNumber != connection.sendNext {
        return;
      }
      connections := connections[key := connection.(sendUnacknowledged := segment.acknowledgementNumber,
          state := Established)];
    }
  }
}
