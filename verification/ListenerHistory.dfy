/** The listener's table and replies as functions of the trace of segments received. */
module ListenerHistory {
  import opened NetTypes
  import opened Tcp
  import opened Listener

  datatype Arrival = Arrival(remoteIp: Ipv4Addr, segment: TcpSegment)

  /** The fixed parameters of a listener. */
  datatype Config = Config(localIp: Ipv4Addr, localPort: U16, capacity: nat, initialSequence: U32) {
    function Initial(): ListenerState {
      ListenerState(localIp, localPort, capacity, initialSequence, map[])
    }

    predicate IsAddressed(a: Arrival) {
      Initial().IsAddressed(a.segment)
    }

    /** The four-tuple an arrival belongs to. */
    function KeyOf(a: Arrival): TcpConnectionKey {
      Initial().KeyOf(a.remoteIp, a.segment)
    }

    predicate IsSyn(a: Arrival) {
      IsAddressed(a) && AcceptsInitialSyn(a.segment)
    }

    predicate IsAck(a: Arrival) {
      IsAddressed(a) && AcceptsFinalAck(a.segment)
    }
  }

  function Run(c: Config, trace: seq<Arrival>): ListenerState
    decreases |trace|
  {
    if trace == [] then c.Initial()
    else
      var n := |trace| - 1;
      Receive(Run(c, trace[..n]), trace[n].remoteIp, trace[n].segment).0
  }

  /** The reply to the i-th segment of a trace. */
  function ActionAt(c: Config, trace: seq<Arrival>, i: nat): TcpAction
    requires i < |trace|
  {
    Receive(Run(c, trace[..i]), trace[i].remoteIp, trace[i].segment).1
  }

  /** The first acceptable SYN of a four-tuple: where it is in the trace and the sequence number it carries. */
  datatype Opening = Opening(key: TcpConnectionKey, irs: U32, at: nat)

  ghost predicate Opened(openings: seq<Opening>, key: TcpConnectionKey) {
    exists i :: 0 <= i < |openings| && openings[i].key == key
  }

  /** The distinct four-tuples of a trace in the order of their first acceptable SYN, without any limit. */
  ghost function Openings(c: Config, trace: seq<Arrival>): seq<Opening>
    decreases |trace|
  {
    if trace == [] then []
    else
      var n := |trace| - 1;
      var before := Openings(c, trace[..n]);
      if c.IsSyn(trace[n]) && !Opened(before, c.KeyOf(trace[n]))
      then before + [Opening(c.KeyOf(trace[n]), trace[n].segment.sequenceNumber, n)]
      else before
  }

  /** The openings that find room. */
  ghost function Admitted(c: Config, trace: seq<Arrival>): seq<Opening> {
    var openings := Openings(c, trace);
    if |openings| <= c.capacity then openings else openings[..c.capacity]
  }

  function IssOf(c: Config, i: nat): U32 {
    WrappingAdd32(c.initialSequence, i)
  }

  /** An acceptable ACK of both initial sequence numbers. */
  predicate Completes(c: Config, a: Arrival, o: Opening, iss: U32) {
    c.IsAck(a) && c.KeyOf(a) == o.key
    && a.segment.sequenceNumber == WrappingAdd32(o.irs, 1)
    && a.segment.acknowledgementNumber == WrappingAdd32(iss, 1)
  }

  ghost predicate IsCompleted(c: Config, trace: seq<Arrival>, o: Opening, iss: U32) {
    exists j :: o.at < j < |trace| && Completes(c, trace[j], o, iss)
  }

  /** The connection that the i-th opening has become. */
  ghost function ConnectionOf(c: Config, trace: seq<Arrival>, o: Opening, i: nat): TcpConnection {
    var iss := IssOf(c, i);
    var completed := IsCompleted(c, trace, o, iss);
    TcpConnection(
      if completed then Established else SynReceived,
      iss,
      if completed then WrappingAdd32(iss, 1) else iss,
      WrappingAdd32(iss, 1),
      o.irs,
      WrappingAdd32(o.irs, 1))
  }

  /** The opening is the first acceptable SYN of its four-tuple. */
  ghost predicate IsFirstSyn(c: Config, trace: seq<Arrival>, o: Opening) {
    && o.at < |trace| && c.IsSyn(trace[o.at]) && c.KeyOf(trace[o.at]) == o.key
    && trace[o.at].segment.sequenceNumber == o.irs
    && forall k | 0 <= k < o.at && c.IsSyn(trace[k]) :: c.KeyOf(trace[k]) != o.key
  }

  lemma {:induction false} EverySynIsOpened(c: Config, trace: seq<Arrival>)
    ensures forall k | 0 <= k < |trace| && c.IsSyn(trace[k]) :: Opened(Openings(c, trace), c.KeyOf(trace[k]))
    decreases |trace|
  {
    if trace == [] {
    } else {
      var n := |trace| - 1;
      var before, openings := Openings(c, trace[..n]), Openings(c, trace);
      EverySynIsOpened(c, trace[..n]);
      forall k | 0 <= k < |trace| && c.IsSyn(trace[k]) ensures Opened(openings, c.KeyOf(trace[k])) {
        if k == n && openings != before {
          assert openings[|before|].key == c.KeyOf(trace[k]);
        } else {
          assert k < n ==> trace[..n][k] == trace[k];
          var i :| 0 <= i < |before| && before[i].key == c.KeyOf(trace[k]);
          assert openings[i] == before[i];
        }
      }
    }
  }

  lemma FirstSynExtends(c: Config, trace: seq<Arrival>, n: nat, o: Opening)
    requires n <= |trace| && IsFirstSyn(c, trace[..n], o)
    ensures IsFirstSyn(c, trace, o)
  {
    forall k | 0 <= k < o.at && c.IsSyn(trace[k]) ensures c.KeyOf(trace[k]) != o.key {
      assert trace[..n][k] == trace[k];
    }
  }

  /** Openings are the first SYNs of their four-tuples, in the order of the trace. */
  lemma {:induction false} OpeningsAreFirstSyns(c: Config, trace: seq<Arrival>)
    ensures forall i | 0 <= i < |Openings(c, trace)| :: IsFirstSyn(c, trace, Openings(c, trace)[i])
    ensures forall i, j | 0 <= i < j < |Openings(c, trace)| :: Openings(c, trace)[i].at < Openings(c, trace)[j].at
    decreases |trace|
  {
    if trace == [] {
    } else {
      var n := |trace| - 1;
      var prefix := trace[..n];
      var before, openings := Openings(c, prefix), Openings(c, trace);
      OpeningsAreFirstSyns(c, prefix);
      EverySynIsOpened(c, prefix);
      forall i | 0 <= i < |openings| ensures IsFirstSyn(c, trace, openings[i]) {
        if i < |before| {
          FirstSynExtends(c, trace, n, before[i]);
        } else {
          forall k | 0 <= k < n && c.IsSyn(trace[k]) ensures c.KeyOf(trace[k]) != openings[i].key {
            assert prefix[k] == trace[k];
          }
        }
      }
    }
  }

  lemma OpeningsAreDistinct(c: Config, trace: seq<Arrival>, i: nat, j: nat)
    requires i < j < |Openings(c, trace)|
    ensures Openings(c, trace)[i].key != Openings(c, trace)[j].key
  {
    OpeningsAreFirstSyns(c, trace);
    assert IsFirstSyn(c, trace, Openings(c, trace)[i]) && IsFirstSyn(c, trace, Openings(c, trace)[j]);
  }

  /** The parameters, the next ISS and the keys of a table that holds the given openings. */
  ghost predicate ShapeMatches(c: Config, admitted: seq<Opening>, s: ListenerState) {
    && s.localIp == c.localIp && s.localPort == c.localPort && s.capacity == c.capacity
    && s.nextInitialSequence == IssOf(c, |admitted|)
    && |s.connections| == |admitted|
    && (forall key :: key in s.connections <==> Opened(admitted, key))
  }

  /** The table a trace leads to. */
  ghost predicate TableMatches(c: Config, trace: seq<Arrival>, s: ListenerState) {
    var admitted := Admitted(c, trace);
    && ShapeMatches(c, admitted, s)
    && (forall i | 0 <= i < |admitted| :: EntryMatches(c, trace, s, admitted[i], i))
  }

  ghost predicate EntryMatches(c: Config, trace: seq<Arrival>, s: ListenerState, o: Opening, i: nat) {
    o.key in s.connections && s.connections[o.key] == ConnectionOf(c, trace, o, i)
  }

  /** One more segment completes an opening, or leaves it as it was. */
  lemma CompletionStep(c: Config, trace: seq<Arrival>, o: Opening, iss: U32)
    requires trace != [] && o.at < |trace| - 1
    ensures var n := |trace| - 1;
            IsCompleted(c, trace, o, iss) <==> IsCompleted(c, trace[..n], o, iss) || Completes(c, trace[n], o, iss)
  {
    var n := |trace| - 1;
    if IsCompleted(c, trace[..n], o, iss) {
      var j :| o.at < j < n && Completes(c, trace[..n][j], o, iss);
      assert Completes(c, trace[j], o, iss);
    }
    if IsCompleted(c, trace, o, iss) && !Completes(c, trace[n], o, iss) {
      var j :| o.at < j < |trace| && Completes(c, trace[j], o, iss);
      assert trace[..n][j] == trace[j];
    }
  }

  /** A segment that completes nothing and admits nobody leaves the table as it was. */
  lemma QuietStep(c: Config, trace: seq<Arrival>)
    requires trace != []
    requires var n := |trace| - 1;
             && TableMatches(c, trace[..n], Run(c, trace[..n]))
             && Run(c, trace) == Run(c, trace[..n]) && Admitted(c, trace) == Admitted(c, trace[..n])
             && forall i | 0 <= i < |Admitted(c, trace)| ::
                  Completes(c, trace[n], Admitted(c, trace)[i], IssOf(c, i))
                  ==> IsCompleted(c, trace[..n], Admitted(c, trace)[i], IssOf(c, i))
    ensures TableMatches(c, trace, Run(c, trace))
  {
    var n := |trace| - 1;
    var admitted := Admitted(c, trace);
    OpeningsAreFirstSyns(c, trace[..n]);
    forall i | 0 <= i < |admitted|
      ensures EntryMatches(c, trace, Run(c, trace), admitted[i], i)
    {
      assert IsFirstSyn(c, trace[..n], Openings(c, trace[..n])[i]);
      assert EntryMatches(c, trace[..n], Run(c, trace), admitted[i], i);
      CompletionStep(c, trace, admitted[i], IssOf(c, i));
    }
  }

  /** Whether the last segment is a first acceptable SYN that finds room. */
  ghost predicate IsAdmission(c: Config, trace: seq<Arrival>) {
    trace != []
    && var n := |trace| - 1;
       var before := Admitted(c, trace[..n]);
       c.IsSyn(trace[n]) && !Opened(before, c.KeyOf(trace[n])) && |before| < c.capacity
  }

  /** Entries of other four-tuples keep matching when a four-tuple is admitted. */
  lemma OthersAcrossAdmission(c: Config, trace: seq<Arrival>, i: nat)
    requires IsAdmission(c, trace) && i < |Admitted(c, trace[..|trace| - 1])|
    ensures var n := |trace| - 1;
            var o := Admitted(c, trace[..n])[i];
            o.key != c.KeyOf(trace[n]) && ConnectionOf(c, trace, o, i) == ConnectionOf(c, trace[..n], o, i)
  {
    var n := |trace| - 1;
    var before := Admitted(c, trace[..n]);
    OpeningsAreFirstSyns(c, trace[..n]);
    assert IsFirstSyn(c, trace[..n], before[i]);
    CompletionStep(c, trace, before[i], IssOf(c, i));
    assert Opened(before, before[i].key);
  }

  lemma OpenedAppend(before: seq<Opening>, o: Opening, key: TcpConnectionKey)
    ensures Opened(before + [o], key) <==> Opened(before, key) || key == o.key
  {
    var after := before + [o];
    if Opened(before, key) {
      var i :| 0 <= i < |before| && before[i].key == key;
      assert after[i].key == key;
    }
    assert after[|before|] == o;
  }

  /** What an admission does to the list and to the table. */
  lemma AdmissionEffect(c: Config, trace: seq<Arrival>)
    requires IsAdmission(c, trace) && TableMatches(c, trace[..|trace| - 1], Run(c, trace[..|trace| - 1]))
    ensures var n := |trace| - 1;
            var before, s := Admitted(c, trace[..n]), Run(c, trace[..n]);
            var key, irs := c.KeyOf(trace[n]), trace[n].segment.sequenceNumber;
            && Admitted(c, trace) == before + [Opening(key, irs, n)]
            && key !in s.connections
            && Run(c, trace) == s.(nextInitialSequence := WrappingAdd32(s.nextInitialSequence, 1),
                                   connections := s.connections[key := NewConnection(s.nextInitialSequence, irs)])
  {
  }

  lemma IssSuccessor(c: Config, i: nat)
    ensures WrappingAdd32(IssOf(c, i), 1) == IssOf(c, i + 1)
  {
  }

  lemma ShapeAfterAdmission(c: Config, before: seq<Opening>, s: ListenerState, o: Opening, connection: TcpConnection)
    requires ShapeMatches(c, before, s) && o.key !in s.connections
    ensures ShapeMatches(c, before + [o], s.(nextInitialSequence := WrappingAdd32(s.nextInitialSequence, 1),
                                             connections := s.connections[o.key := connection]))
  {
    IssSuccessor(c, |before|);
    forall key {
      OpenedAppend(before, o, key);
    }
  }

  lemma AdmissionShape(c: Config, trace: seq<Arrival>)
    requires IsAdmission(c, trace) && TableMatches(c, trace[..|trace| - 1], Run(c, trace[..|trace| - 1]))
    ensures var before, after := Admitted(c, trace[..|trace| - 1]), Admitted(c, trace);
            && |after| == |before| + 1 && after[..|before|] == before
            && ShapeMatches(c, after, Run(c, trace))
  {
    var n := |trace| - 1;
    var s, o := Run(c, trace[..n]), Opening(c.KeyOf(trace[n]), trace[n].segment.sequenceNumber, n);
    AdmissionEffect(c, trace);
    ShapeAfterAdmission(c, Admitted(c, trace[..n]), s, o, NewConnection(s.nextInitialSequence, o.irs));
  }

  lemma AdmissionKeepsEntry(c: Config, trace: seq<Arrival>, i: nat)
    requires IsAdmission(c, trace) && TableMatches(c, trace[..|trace| - 1], Run(c, trace[..|trace| - 1]))
    requires i < |Admitted(c, trace[..|trace| - 1])|
    ensures i < |Admitted(c, trace)| && EntryMatches(c, trace, Run(c, trace), Admitted(c, trace)[i], i)
  {
    var n := |trace| - 1;
    AdmissionEffect(c, trace);
    OthersAcrossAdmission(c, trace, i);
    assert EntryMatches(c, trace[..n], Run(c, trace[..n]), Admitted(c, trace[..n])[i], i);
  }

  lemma AdmissionAddsEntry(c: Config, trace: seq<Arrival>, i: nat)
    requires IsAdmission(c, trace) && TableMatches(c, trace[..|trace| - 1], Run(c, trace[..|trace| - 1]))
    requires i == |Admitted(c, trace[..|trace| - 1])|
    ensures i < |Admitted(c, trace)| && EntryMatches(c, trace, Run(c, trace), Admitted(c, trace)[i], i)
  {
    var n := |trace| - 1;
    AdmissionEffect(c, trace);
    var o := Admitted(c, trace)[i];
    assert o.at == n && !IsCompleted(c, trace, o, IssOf(c, i));
  }

  lemma AdmissionEntry(c: Config, trace: seq<Arrival>, i: nat)
    requires IsAdmission(c, trace) && TableMatches(c, trace[..|trace| - 1], Run(c, trace[..|trace| - 1]))
    requires i < |Admitted(c, trace)|
    ensures EntryMatches(c, trace, Run(c, trace), Admitted(c, trace)[i], i)
  {
    AdmissionShape(c, trace);
    if i < |Admitted(c, trace[..|trace| - 1])| {
      AdmissionKeepsEntry(c, trace, i);
    } else {
      AdmissionAddsEntry(c, trace, i);
    }
  }

  lemma AdmissionStep(c: Config, trace: seq<Arrival>)
    requires IsAdmission(c, trace) && TableMatches(c, trace[..|trace| - 1], Run(c, trace[..|trace| - 1]))
    ensures TableMatches(c, trace, Run(c, trace))
  {
    AdmissionShape(c, trace);
    forall i | 0 <= i < |Admitted(c, trace)| ensures EntryMatches(c, trace, Run(c, trace), Admitted(c, trace)[i], i) {
      AdmissionEntry(c, trace, i);
    }
  }

  /** An acceptable ACK updates the entry of its four-tuple exactly if it completes the opening. */
  lemma EntryAcrossAck(c: Config, trace: seq<Arrival>, i: nat)
    requires trace != [] && c.IsAck(trace[|trace| - 1])
    requires TableMatches(c, trace[..|trace| - 1], Run(c, trace[..|trace| - 1]))
    requires i < |Admitted(c, trace[..|trace| - 1])|
    ensures EntryMatches(c, trace, Run(c, trace), Admitted(c, trace[..|trace| - 1])[i], i)
  {
    var n := |trace| - 1;
    var o := Admitted(c, trace[..n])[i];
    var s := Run(c, trace[..n]);
    OpeningsAreFirstSyns(c, trace[..n]);
    assert IsFirstSyn(c, trace[..n], Openings(c, trace[..n])[i]);
    CompletionStep(c, trace, o, IssOf(c, i));
    assert EntryMatches(c, trace[..n], s, o, i);
    assert Run(c, trace) == AfterFinalAck(s, c.KeyOf(trace[n]), trace[n].segment);
  }

  lemma AckStep(c: Config, trace: seq<Arrival>)
    requires trace != [] && c.IsAck(trace[|trace| - 1])
    requires TableMatches(c, trace[..|trace| - 1], Run(c, trace[..|trace| - 1]))
    ensures TableMatches(c, trace, Run(c, trace))
  {
    var n := |trace| - 1;
    var admitted := Admitted(c, trace);
    forall i | 0 <= i < |admitted| ensures EntryMatches(c, trace, Run(c, trace), admitted[i], i) {
      EntryAcrossAck(c, trace, i);
    }
    assert Run(c, trace).connections.Keys == Run(c, trace[..n]).connections.Keys;
  }

  /**
   After any trace the table is a function of the trace: its keys are the first `capacity` distinct
   four-tuples in the order of their first acceptable SYN, the i-th with ISS `initialSequence + i`, and each
   is established exactly if an acceptable ACK of both sequence numbers has followed its SYN.
   */
  lemma {:induction false} TableIsFunctionOfTrace(c: Config, trace: seq<Arrival>)
    ensures TableMatches(c, trace, Run(c, trace))
    decreases |trace|
  {
    if trace == [] {
    } else {
      var n := |trace| - 1;
      TableIsFunctionOfTrace(c, trace[..n]);
      if IsAdmission(c, trace) {
        AdmissionStep(c, trace);
      } else if c.IsAck(trace[n]) {
        AckStep(c, trace);
      } else {
        QuietStep(c, trace);
      }
    }
  }

  /** The sequence variables of every connection, in every reachable state (section 3.3.1 of RFC 9293). */
  lemma SequenceVariables(c: Config, trace: seq<Arrival>, key: TcpConnectionKey)
    requires key in Run(c, trace).connections
    ensures var connection := Run(c, trace).connections[key];
            && connection.sendNext == WrappingAdd32(connection.initialSendSequence, 1)
            && connection.receiveNext == WrappingAdd32(connection.initialReceiveSequence, 1)
            && connection.sendUnacknowledged ==
               (if connection.state == Established then connection.sendNext else connection.initialSendSequence)
            && key.localIp == c.localIp && key.localPort == c.localPort && key.remotePort != 0
  {
    TableIsFunctionOfTrace(c, trace);
    var admitted := Admitted(c, trace);
    var i :| 0 <= i < |admitted| && admitted[i].key == key;
    OpeningsAreFirstSyns(c, trace);
    assert IsFirstSyn(c, trace, Openings(c, trace)[i]);
    assert EntryMatches(c, trace, Run(c, trace), admitted[i], i);
  }

  /** With at most 2^32 places, no two connections share an initial send sequence number. */
  lemma IssPairwiseDistinct(c: Config, trace: seq<Arrival>, x: TcpConnectionKey, y: TcpConnectionKey)
    requires c.capacity <= 0x1_0000_0000 && x != y
    requires x in Run(c, trace).connections && y in Run(c, trace).connections
    ensures Run(c, trace).connections[x].initialSendSequence != Run(c, trace).connections[y].initialSendSequence
  {
    TableIsFunctionOfTrace(c, trace);
    var s, admitted := Run(c, trace), Admitted(c, trace);
    var i :| 0 <= i < |admitted| && admitted[i].key == x;
    var j :| 0 <= j < |admitted| && admitted[j].key == y;
    assert EntryMatches(c, trace, s, admitted[i], i) && EntryMatches(c, trace, s, admitted[j], j);
    IssApart(c, i, j);
  }

  lemma IssApart(c: Config, i: nat, j: nat)
    requires i != j && -0x1_0000_0000 < i - j < 0x1_0000_0000
    ensures IssOf(c, i) != IssOf(c, j)
  {
  }

  /** Established means: admitted, and acknowledged after the SYN that opened it. */
  lemma EstablishedIffCompleted(c: Config, trace: seq<Arrival>, key: TcpConnectionKey)
    ensures (key in Run(c, trace).connections && Run(c, trace).connections[key].state == Established)
            <==> exists i :: 0 <= i < |Admitted(c, trace)| && Admitted(c, trace)[i].key == key
                             && IsCompleted(c, trace, Admitted(c, trace)[i], IssOf(c, i))
  {
    TableIsFunctionOfTrace(c, trace);
    var s, admitted := Run(c, trace), Admitted(c, trace);
    if key in s.connections {
      var i :| 0 <= i < |admitted| && admitted[i].key == key;
      assert EntryMatches(c, trace, s, admitted[i], i);
      forall j | 0 <= j < |admitted| && admitted[j].key == key ensures j == i {
        if i < j { OpeningsAreDistinct(c, trace, i, j); }
        if j < i { OpeningsAreDistinct(c, trace, j, i); }
      }
    } else {
      assert forall i | 0 <= i < |admitted| :: EntryMatches(c, trace, s, admitted[i], i);
    }
  }

  /** What one connection may become: only SynReceived to Established, with the same sequence numbers. */
  predicate Progresses(before: TcpConnection, after: TcpConnection) {
    after == before
    || (before.state == SynReceived && after == before.(state := Established, sendUnacknowledged := before.sendNext))
  }

  /** One segment touches at most the entry of its own four-tuple, and a SYN never changes an existing entry. */
  lemma StepIsLocal(s: ListenerState, remoteIp: Ipv4Addr, segment: TcpSegment, key: TcpConnectionKey)
    ensures var t := Receive(s, remoteIp, segment).0;
            && (key != s.KeyOf(remoteIp, segment) ==>
                  (key in t.connections <==> key in s.connections)
                  && (key in s.connections ==> t.connections[key] == s.connections[key]))
            && (key in s.connections && AcceptsInitialSyn(segment) && key == s.KeyOf(remoteIp, segment) ==> t == s)
            && (key in s.connections ==>
                  key in t.connections && Progresses(s.connections[key], t.connections[key]))
  {
  }

  /** No connection is ever removed, and none regresses. */
  lemma {:induction false} ConnectionsOnlyProgress(c: Config, trace: seq<Arrival>, m: nat, key: TcpConnectionKey)
    requires m <= |trace| && key in Run(c, trace[..m]).connections
    ensures key in Run(c, trace).connections
    ensures Progresses(Run(c, trace[..m]).connections[key], Run(c, trace).connections[key])
    decreases |trace|
  {
    var n := |trace| - 1;
    if m == |trace| {
      assert trace[..m] == trace;
    } else {
      assert trace[..n][..m] == trace[..m];
      ConnectionsOnlyProgress(c, trace[..n], m, key);
      StepIsLocal(Run(c, trace[..n]), trace[n].remoteIp, trace[n].segment, key);
    }
  }

  /** A SYN-ACK states what the table holds for its four-tuple from then on. */
  lemma SynAckMatchesEntry(c: Config, trace: seq<Arrival>, i: nat)
    requires i < |trace| && ActionAt(c, trace, i).SendSynAck?
    ensures var key := c.KeyOf(trace[i]);
            var s, t := Run(c, trace[..i]), Run(c, trace[..i + 1]);
            && key in t.connections && ActionAt(c, trace, i).reply == SynAckOf(key, t.connections[key])
            && (key in s.connections ==>
                  s.connections[key].state == SynReceived
                  && ActionAt(c, trace, i).reply == SynAckOf(key, s.connections[key]))
  {
    assert trace[..i + 1][..i] == trace[..i];
    TableIsFunctionOfTrace(c, trace[..i]);
  }

  /** All SYN-ACKs ever sent for a four-tuple are the same. */
  lemma SynAcksAreIdentical(c: Config, trace: seq<Arrival>, i: nat, j: nat)
    requires i < j < |trace| && c.KeyOf(trace[i]) == c.KeyOf(trace[j])
    requires ActionAt(c, trace, i).SendSynAck? && ActionAt(c, trace, j).SendSynAck?
    ensures ActionAt(c, trace, i) == ActionAt(c, trace, j)
  {
    SynAckMatchesEntry(c, trace, i);
    SynAckMatchesEntry(c, trace, j);
    assert trace[..j][..i + 1] == trace[..i + 1];
    ConnectionsOnlyProgress(c, trace[..j], i + 1, c.KeyOf(trace[i]));
  }

  /** None is sent once the connection is established. */
  lemma NoSynAckAfterEstablished(c: Config, trace: seq<Arrival>, m: nat, j: nat)
    requires m <= j < |trace|
    requires var key, s := c.KeyOf(trace[j]), Run(c, trace[..m]);
             key in s.connections && s.connections[key].state == Established
    ensures ActionAt(c, trace, j) == NoReply
  {
    assert trace[..j][..m] == trace[..m];
    ConnectionsOnlyProgress(c, trace[..j], m, c.KeyOf(trace[j]));
    if ActionAt(c, trace, j).SendSynAck? {
      SynAckMatchesEntry(c, trace, j);
    }
  }

  /** An acceptable ACK that answers a SYN-ACK. */
  predicate Acknowledges(c: Config, a: Arrival, synAck: SynAck) {
    && c.IsAck(a)
    && a.segment.sequenceNumber == synAck.acknowledgementNumber
    && a.segment.acknowledgementNumber == WrappingAdd32(synAck.sequenceNumber, 1)
  }

  ghost predicate IsEstablished(s: ListenerState, key: TcpConnectionKey) {
    key in s.connections && s.connections[key].state == Established
  }

  /** The ACK of an entry that waits for it establishes the connection. */
  lemma AckEstablishes(c: Config, trace: seq<Arrival>, j: nat, connection: TcpConnection)
    requires j < |trace|
    requires var key, s := c.KeyOf(trace[j]), Run(c, trace[..j]);
             key in s.connections && Progresses(connection, s.connections[key])
    requires connection.sendNext == WrappingAdd32(connection.initialSendSequence, 1)
    requires Acknowledges(c, trace[j], SynAckOf(c.KeyOf(trace[j]), connection))
    ensures IsEstablished(Run(c, trace[..j + 1]), c.KeyOf(trace[j]))
  {
    assert trace[..j + 1][..j] == trace[..j];
    TableIsFunctionOfTrace(c, trace[..j]);
  }

  lemma EntryAtAck(c: Config, trace: seq<Arrival>, i: nat, j: nat)
    requires i < j < |trace| && ActionAt(c, trace, i).SendSynAck?
    ensures var key, s, t := c.KeyOf(trace[i]), Run(c, trace[..i + 1]), Run(c, trace[..j]);
            && key in s.connections && ActionAt(c, trace, i).reply == SynAckOf(key, s.connections[key])
            && key in t.connections && Progresses(s.connections[key], t.connections[key])
  {
    SynAckMatchesEntry(c, trace, i);
    assert trace[..j][..i + 1] == trace[..i + 1];
    ConnectionsOnlyProgress(c, trace[..j], i + 1, c.KeyOf(trace[i]));
  }

  /** The handshake works: a SYN-ACK sent, and an ACK that answers it at any later time, establish the connection. */
  lemma HandshakeCompletes(c: Config, trace: seq<Arrival>, i: nat, j: nat)
    requires i < j < |trace| && c.KeyOf(trace[i]) == c.KeyOf(trace[j])
    requires ActionAt(c, trace, i).SendSynAck? && Acknowledges(c, trace[j], ActionAt(c, trace, i).reply)
    ensures IsEstablished(Run(c, trace), c.KeyOf(trace[i]))
  {
    var key := c.KeyOf(trace[i]);
    EntryAtAck(c, trace, i, j);
    SequenceVariables(c, trace[..i + 1], key);
    AckEstablishes(c, trace, j, Run(c, trace[..i + 1]).connections[key]);
    ConnectionsOnlyProgress(c, trace, j + 1, key);
  }

  /** The i-th segment opens the n-th admitted four-tuple or repeats the SYN that did, before it is completed. */
  ghost predicate IsAnswerableSyn(c: Config, trace: seq<Arrival>, i: nat, n: nat)
    requires i < |trace|
  {
    var admitted := Admitted(c, trace[..i + 1]);
    && c.IsSyn(trace[i]) && n < |admitted|
    && admitted[n].key == c.KeyOf(trace[i]) && admitted[n].irs == trace[i].segment.sequenceNumber
    && !IsCompleted(c, trace[..i], admitted[n], IssOf(c, n))
  }

  /** What an answerable segment is answered with. */
  function AnswerOf(c: Config, a: Arrival, n: nat): TcpAction {
    SendSynAck(SynAck(c.localPort, a.segment.sourcePort, (c.initialSequence + n) % 0x1_0000_0000,
                      (a.segment.sequenceNumber + 1) % 0x1_0000_0000, 64240))
  }

  lemma AdmissionIsAnswered(c: Config, trace: seq<Arrival>, i: nat)
    requires i < |trace| && IsAdmission(c, trace[..i + 1])
    ensures var n := |Admitted(c, trace[..i])|;
            IsAnswerableSyn(c, trace, i, n) && ActionAt(c, trace, i) == AnswerOf(c, trace[i], n)
  {
    var p := trace[..i + 1];
    assert p[..i] == trace[..i];
    TableIsFunctionOfTrace(c, trace[..i]);
  }

  /** An admitted four-tuple has only one place. */
  lemma AdmittedPlace(c: Config, trace: seq<Arrival>, i: nat, n: nat)
    requires i < |trace| && IsAdmission(c, trace[..i + 1]) && IsAnswerableSyn(c, trace, i, n)
    ensures n == |Admitted(c, trace[..i])|
  {
    var p := trace[..i + 1];
    assert p[..i] == trace[..i];
    TableIsFunctionOfTrace(c, trace[..i]);
  }

  lemma RepeatIsAnswered(c: Config, trace: seq<Arrival>, i: nat, n: nat)
    requires i < |trace| && c.IsSyn(trace[i]) && !IsAdmission(c, trace[..i + 1])
    requires n < |Admitted(c, trace[..i])| && Admitted(c, trace[..i])[n].key == c.KeyOf(trace[i])
    ensures if IsAnswerableSyn(c, trace, i, n) then ActionAt(c, trace, i) == AnswerOf(c, trace[i], n)
            else ActionAt(c, trace, i) == NoReply
    ensures Admitted(c, trace[..i + 1]) == Admitted(c, trace[..i])
  {
    var p := trace[..i + 1];
    assert p[..i] == trace[..i];
    TableIsFunctionOfTrace(c, trace[..i]);
    assert EntryMatches(c, trace[..i], Run(c, trace[..i]), Admitted(c, trace[..i])[n], n);
  }

  lemma StrangerIsNotAnswered(c: Config, trace: seq<Arrival>, i: nat)
    requires i < |trace| && !IsAdmission(c, trace[..i + 1])
    requires !c.IsSyn(trace[i]) || !Opened(Admitted(c, trace[..i]), c.KeyOf(trace[i]))
    ensures ActionAt(c, trace, i) == NoReply
    ensures c.IsSyn(trace[i]) ==> Admitted(c, trace[..i + 1]) == Admitted(c, trace[..i])
  {
    var p := trace[..i + 1];
    assert p[..i] == trace[..i];
    TableIsFunctionOfTrace(c, trace[..i]);
  }

  /**
   Replies are a function of the trace too: a SYN-ACK is sent exactly for an answerable segment, and carries the
   ISS of its place and the acknowledgement of its SYN.
   */
  lemma RepliesAreFunctionOfTrace(c: Config, trace: seq<Arrival>, i: nat)
    requires i < |trace|
    ensures ActionAt(c, trace, i) == NoReply <==> forall n: nat :: !IsAnswerableSyn(c, trace, i, n)
    ensures forall n: nat | IsAnswerableSyn(c, trace, i, n) :: ActionAt(c, trace, i) == AnswerOf(c, trace[i], n)
  {
    var before, key := Admitted(c, trace[..i]), c.KeyOf(trace[i]);
    if IsAdmission(c, trace[..i + 1]) {
      AdmissionIsAnswered(c, trace, i);
      forall n: nat | IsAnswerableSyn(c, trace, i, n) ensures n == |before| {
        AdmittedPlace(c, trace, i, n);
      }
    } else if c.IsSyn(trace[i]) && Opened(before, key) {
      var k :| 0 <= k < |before| && before[k].key == key;
      RepeatIsAnswered(c, trace, i, k);
      forall n: nat | IsAnswerableSyn(c, trace, i, n) ensures ActionAt(c, trace, i) == AnswerOf(c, trace[i], n) {
        RepeatIsAnswered(c, trace, i, n);
      }
    } else {
      StrangerIsNotAnswered(c, trace, i);
      forall n: nat ensures !IsAnswerableSyn(c, trace, i, n) {
        assert n < |before| && before[n].key == key ==> Opened(before, key);
      }
    }
  }

  /** Which segments are acceptable, in the bits of the flag byte: SYN alone, or ACK alone, and no payload. */
  lemma AcceptableSegments(segment: TcpSegment)
    ensures AcceptsInitialSyn(segment) <==> segment.flags % 0x40 == 0x02 && segment.payload == []
    ensures AcceptsFinalAck(segment) <==> segment.flags % 0x40 == 0x10 && segment.payload == []
  {
    FlagBits(segment.flags);
  }

  /** Two segments belong to one connection exactly if they come from the same address and port. */
  lemma KeysAgree(c: Config, x: Arrival, y: Arrival)
    ensures c.KeyOf(x) == c.KeyOf(y) <==> x.remoteIp == y.remoteIp && x.segment.sourcePort == y.segment.sourcePort
  {
  }

  /** What the listener ignores altogether: other ports, port 0, and everything but a plain SYN or ACK. */
  lemma OthersAreIgnored(s: ListenerState, a: Arrival)
    requires a.segment.destinationPort != s.localPort || a.segment.sourcePort == 0 || a.segment.payload != []
             || (a.segment.flags % 0x40 != 0x02 && a.segment.flags % 0x40 != 0x10)
    ensures Receive(s, a.remoteIp, a.segment) == (s, NoReply)
  {
    AcceptableSegments(a.segment);
  }

  /** A plain SYN from a port other than 0 to the listening port, of a remote that is not in the table. */
  predicate IsNewSyn(c: Config, s: ListenerState, a: Arrival) {
    && a.segment.flags % 0x40 == 0x02 && a.segment.payload == []
    && a.segment.sourcePort != 0 && a.segment.destinationPort == c.localPort
    && forall key | key in s.connections :: key.remoteIp != a.remoteIp || key.remotePort != a.segment.sourcePort
  }

  lemma NewSynStep(c: Config, s: ListenerState, a: Arrival)
    requires s.localIp == c.localIp && s.localPort == c.localPort && |s.connections| < s.capacity
    requires s.nextInitialSequence == IssOf(c, |s.connections|) && IsNewSyn(c, s, a)
    ensures var key := TcpConnectionKey(c.localIp, c.localPort, a.remoteIp, a.segment.sourcePort);
            var (t, action) := Receive(s, a.remoteIp, a.segment);
            && action == AnswerOf(c, a, |s.connections|)
            && t.connections == s.connections[key := NewConnection(s.nextInitialSequence, a.segment.sequenceNumber)]
  {
    AcceptableSegments(a.segment);
  }

  /** In every reachable table with room, a plain SYN of an unknown remote is answered, with the next ISS. */
  lemma NewSynIsAnswered(c: Config, trace: seq<Arrival>, a: Arrival)
    requires IsNewSyn(c, Run(c, trace), a) && |Run(c, trace).connections| < c.capacity
    ensures var s := Run(c, trace);
            var key := TcpConnectionKey(c.localIp, c.localPort, a.remoteIp, a.segment.sourcePort);
            var (t, action) := Receive(s, a.remoteIp, a.segment);
            && action == AnswerOf(c, a, |s.connections|)
            && t.connections == s.connections[key := NewConnection(s.nextInitialSequence, a.segment.sequenceNumber)]
  {
    TableIsFunctionOfTrace(c, trace);
    NewSynStep(c, Run(c, trace), a);
  }
}
