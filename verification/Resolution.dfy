/** Address resolution end to end: a resolver's request, an interface's answer, and what both learn. */
module Resolution {
  import opened NetTypes
  import opened Interface
  import opened InterfaceReplies
  import E = Ethernet
  import A = Arp
  import C = Cache
  import R = Resolver

  /** The broadcast frame that carries a request. */
  function RequestFrame(packet: A.ArpPacket): seq<Byte> {
    E.Frame(E.EthernetFrame(BROADCAST, packet.senderMac, E.Arp, A.Packet(packet)))
  }

  /** The answer that the station of `target` gives to a request. */
  function AnswerFrom(mac: MacAddress, request: A.ArpPacket): A.ArpPacket {
    A.ArpPacket(6, 4, A.Reply, mac, request.targetIp, request.senderMac, request.senderIp, [])
  }

  /** Every request of a resolver is well-formed: it opens as an ARP request for the target, from the resolver. */
  lemma RequestOpens(r: R.ResolverState, target: Ipv4Addr, now: nat)
    requires R.OutcomeOf(r, target, now).SendRequest?
    ensures var request := R.OutcomeOf(r, target, now).packet;
            && CarriesArp(RequestFrame(request), r.localMac, BROADCAST, request)
            && request.operation == A.Request && request.targetIp == target
            && request.senderIp == r.localIp && request.senderMac == r.localMac
  {
    var request := R.OutcomeOf(r, target, now).packet;
    A.ParseAfterSerialise(request);
    E.ParseAfterSerialise(E.EthernetFrame(BROADCAST, r.localMac, E.Arp, A.Packet(request)));
  }

  /** Whether a cache answers right after a lesson. */
  predicate Remembers(s: C.CacheState, ip: Ipv4Addr, mac: MacAddress, now: nat) {
    C.Found(C.AfterPurge(C.AfterLearn(s, ip, mac, now), now).entries, ip) == Some(mac)
  }

  /** It does with room and a positive TTL, and as long as it keeps its bound, as every cache does, only then. */
  lemma LessonIsRemembered(s: C.CacheState, ip: Ipv4Addr, mac: MacAddress, now: nat)
    ensures s.maxEntries > 0 && s.ttl > 0 ==> Remembers(s, ip, mac, now)
    ensures |s.entries| <= s.maxEntries && Remembers(s, ip, mac, now) ==> s.maxEntries > 0 && s.ttl > 0
  {
    if |s.entries| <= s.maxEntries && s.maxEntries == 0 {
      assert s.entries == map[];
    }
  }

  /** Observing an answer settles a target that was not cached exactly if the cache has room and a positive TTL. */
  lemma AnswerResolves(r: R.ResolverState, answer: A.ArpPacket, now: nat)
    requires answer.operation == A.Reply && answer.senderIp !in r.cache.entries
    ensures R.OutcomeOf(R.AfterObserve(r, answer, now), answer.senderIp, now) == R.Resolved(answer.senderMac)
            <==> r.cache.maxEntries > 0 && r.cache.ttl > 0
  {
  }

  /** The interface that has the address answers a request, and remembers who asked. */
  lemma InterfaceAnswersRequest(s: InterfaceState, frame: seq<Byte>, request: A.ArpPacket, from: MacAddress, now: nat)
    requires CarriesArp(frame, from, BROADCAST, request)
    requires request.operation == A.Request && request.targetIp == s.ipv4Address
    ensures var (t, r) := ProcessFrame(s, frame, now);
            && r.Ok? && r.value.Some?
            && CarriesArp(r.value.value, s.macAddress, request.senderMac, AnswerFrom(s.macAddress, request))
            && t.resolver.cache == C.AfterLearn(s.resolver.cache, request.senderIp, request.senderMac, now)
  {
    ArpIsAnswered(s, frame, now, from, BROADCAST, request);
  }

  /**
   Whatever the resolver asks for, the interface that has the address answers. Each side has then learned the other,
   so that the resolver resolves the address to the interface's station and the interface's cache holds the
   resolver's, exactly if its own cache has room and a positive TTL.
   */
  lemma RequestLeadsToResolution(r: R.ResolverState, target: Ipv4Addr, asked: nat, s: InterfaceState, answered: nat,
      observed: nat)
    requires R.OutcomeOf(r, target, asked).SendRequest? && s.ipv4Address == target
    ensures var request := R.OutcomeOf(r, target, asked).packet;
            var (t, outcome) := ProcessFrame(s, RequestFrame(request), answered);
            var answer := AnswerFrom(s.macAddress, request);
            && outcome.Ok? && outcome.value.Some?
            && CarriesArp(outcome.value.value, s.macAddress, r.localMac, answer)
            && (R.OutcomeOf(R.AfterObserve(R.AfterResolve(r, target, asked), answer, observed), target, observed)
                == R.Resolved(s.macAddress)
                <==> r.cache.maxEntries > 0 && r.cache.ttl > 0)
            && var cache := s.resolver.cache;
               var found := C.Found(C.AfterPurge(t.resolver.cache, answered).entries, r.localIp);
               && (cache.maxEntries > 0 && cache.ttl > 0 ==> found == Some(r.localMac))
               && (|cache.entries| <= cache.maxEntries && found == Some(r.localMac) ==>
                     cache.maxEntries > 0 && cache.ttl > 0)
  {
    var request := R.OutcomeOf(r, target, asked).packet;
    RequestOpens(r, target, asked);
    InterfaceAnswersRequest(s, RequestFrame(request), request, r.localMac, answered);
    LessonIsRemembered(s.resolver.cache, request.senderIp, request.senderMac, answered);
    AnswerResolves(R.AfterResolve(r, target, asked), AnswerFrom(s.macAddress, request), observed);
  }
}
