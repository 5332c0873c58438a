/** The ARP resolver: a retry state machine per target on top of the cache. */
module Resolver {
  import opened NetTypes
  import opened Arp
  import opened Cache

  datatype ResolveOutcome = Resolved(mac: MacAddress) | SendRequest(packet: ArpPacket) | Pending | Failed

  datatype PendingResolution = PendingResolution(attemptsSent: nat, nextRetryAt: nat)

  /** `lastInstant` is the largest instant the clock can represent. */
  datatype ResolverState = ResolverState(
    localMac: MacAddress,
    localIp: Ipv4Addr,
    cache: CacheState,
    pending: map<Ipv4Addr, PendingResolution>,
    retryInterval: nat,
    maxAttempts: nat,
    lastInstant: nat)
  {
    /** The request that asks for a target. */
    function RequestFor(target: Ipv4Addr): ArpPacket {
      BuildRequest(target, localMac, localIp)
    }

    /** An overflowing instant is replaced by the present one. */
    function NextRetryAt(now: nat): nat {
      if now + retryInterval <= lastInstant then now + retryInterval else now
    }
  }

  /** Resolving a target: the outcome, then the state after it. */
  function OutcomeOf(s: ResolverState, target: Ipv4Addr, now: nat): ResolveOutcome {
    match Found(AfterPurge(s.cache, now).entries, target)
    case Some(mac) => Resolved(mac)
    case None =>
      if s.maxAttempts == 0 then Failed
      else if target !in s.pending then SendRequest(s.RequestFor(target))
      else if now < s.pending[target].nextRetryAt then Pending
      else if s.pending[target].attemptsSent >= s.maxAttempts then Failed
      else SendRequest(s.RequestFor(target))
  }

  function AfterResolve(s: ResolverState, target: Ipv4Addr, now: nat): ResolverState {
    var looked := s.(cache := AfterPurge(s.cache, now));
    match OutcomeOf(s, target, now)
    case Resolved(_) => looked.(pending := s.pending - {target})
    case Failed => looked.(pending := s.pending - {target})
    case Pending => looked
    case SendRequest(_) =>
      var attempts := if target in s.pending then s.pending[target].attemptsSent + 1 else 1;
      looked.(pending := s.pending[target := PendingResolution(attempts, s.NextRetryAt(now))])
  }

  /** Whether an observed packet teaches the cache something. */
  predicate Teaches(s: ResolverState, packet: ArpPacket) {
    !packet.operation.Unknown? && s.cache.maxEntries > 0
  }

  function AfterObserve(s: ResolverState, packet: ArpPacket, now: nat): ResolverState {
    if Teaches(s, packet)
    then s.(cache := AfterPacket(s.cache, packet, now), pending := s.pending - {packet.senderIp})
    else s
  }

  class ArpResolver {
    const localMac: MacAddress
    const localIp: Ipv4Addr
    const cache: ArpCache
    var pending: map<Ipv4Addr, PendingResolution>
    const retryInterval: nat
    const maxAttempts: nat
    const lastInstant: nat

    function State(): ResolverState
      reads this, cache
    {
      ResolverState(localMac, localIp, cache.State(), pending, retryInterval, maxAttempts, lastInstant)
    }

    constructor (localMac: MacAddress, localIp: Ipv4Addr, cache: ArpCache, retryInterval: nat, maxAttempts: nat,
        lastInstant: nat)
      ensures this.cache == cache
      ensures State() == ResolverState(localMac, localIp, cache.State(), map[], retryInterval, maxAttempts, lastInstant)
    {
      this.localMac := localMac;
      this.localIp := localIp;
      this.cache := cache;
      this.pending := map[];
      this.retryInterval := retryInterval;
      this.maxAttempts := maxAttempts;
      this.lastInstant := lastInstant;
    }

    method NextRetryAt(now: nat) returns (at: nat)
      ensures at == State().NextRetryAt(now)
    {
      at := if now + retryInterval <= lastInstant then now + retryInterval else now;
    }

    method Resolve(nextHopIp: Ipv4Addr, now: nat) returns (outcome: ResolveOutcome)
      modifies this, cache
      ensures outcome == OutcomeOf(old(State()), nextHopIp, now)
      ensures State() == AfterResolve(old(State()), nextHopIp, now)
    {
      var mac := cache.LookupMac(nextHopIp, now);
      if mac.Some? {
        pending := pending - {nextHopIp};
        return Resolved(mac.value);
      }
      if maxAttempts == 0 {
        pending := pending - {nextHopIp};
        return Failed;
      }
      var retryAt := NextRetryAt(now);
      if nextHopIp !in pending {
        pending := pending[nextHopIp := PendingResolution(1, retryAt)];
        return SendRequest(BuildRequest(nextHopIp, localMac, localIp));
      }
      var entry := pending[nextHopIp];
      if now < entry.nextRetryAt {
        return Pending;
      }
      if entry.attemptsSent >= maxAttempts {
        pending := pending - {nextHopIp};
        return Failed;
      }
      pending := pending[nextHopIp := PendingResolution(entry.attemptsSent + 1, retryAt)];
      outcome := SendRequest(BuildRequest(nextHopIp, localMac, localIp));
    }

    method Observe(packet: ArpPacket, now: nat) returns (learned: bool)
      modifies this, cache
      ensures learned == Teaches(old(State()), packet)
      ensures State() == AfterObserve(old(State()), packet, now)
    {
      learned := cache.LearnFromPacket(packet, now);
      if learned {
        pending := pending - {packet.senderIp};
      }
    }

    method CachedMac(ip: Ipv4Addr, now: nat) returns (mac: Option<MacAddress>)
      modifies this, cache
      ensures mac == Found(AfterPurge(old(State()).cache, now).entries, ip)
      ensures State() == old(State()).(cache := AfterPurge(old(State()).cache, now))
    {
      mac := cache.LookupMac(ip, now);
    }
  }
}
