/** The ARP cache: bounded, expiring, evicting the oldest entry. */
module Cache {
  import opened NetTypes
  import opened Arp

  datatype CacheEntry = CacheEntry(mac: MacAddress, learnedAt: nat)

  type Entries = map<Ipv4Addr, CacheEntry>

  datatype CacheState = CacheState(entries: Entries, maxEntries: nat, ttl: nat)

  /** Saturating: an entry learned in the future has age zero. */
  function Age(now: nat, learnedAt: nat): nat {
    if now < learnedAt then 0 else now - learnedAt
  }

  /** A lesson is fresh before the instant at which the TTL is over, even while the clock is behind the lesson. */
  predicate IsFresh(learnedAt: nat, ttl: nat, now: nat) {
    ttl > 0 && now < learnedAt + ttl
  }

  function Unexpired(entries: Entries, ttl: nat, now: nat): Entries {
    map ip | ip in entries && Age(now, entries[ip].learnedAt) < ttl :: entries[ip]
  }

  /** The eviction order: by instant, then by address. */
  predicate Precedes(x: Ipv4Addr, ex: CacheEntry, y: Ipv4Addr, ey: CacheEntry) {
    ex.learnedAt < ey.learnedAt || (ex.learnedAt == ey.learnedAt && x.Less(y))
  }

  predicate IsOldest(entries: Entries, ip: Ipv4Addr) {
    ip in entries && forall other | other in entries && other != ip :: Precedes(ip, entries[ip], other, entries[other])
  }

  lemma PrecedesIsTotal(x: Ipv4Addr, ex: CacheEntry, y: Ipv4Addr, ey: CacheEntry)
    requires x != y
    ensures Precedes(x, ex, y, ey) <==> !Precedes(y, ey, x, ex)
  {
  }

  lemma {:induction false} OldestExists(entries: Entries)
    requires |entries| > 0
    ensures exists ip :: IsOldest(entries, ip)
    decreases |entries|
  {
    var x :| x in entries;
    var rest := entries - {x};
    if |rest| == 0 {
      assert forall other | other in entries :: other == x || other in rest;
      assert IsOldest(entries, x);
    } else {
      OldestExists(rest);
      var y :| IsOldest(rest, y);
      PrecedesIsTotal(x, entries[x], y, entries[y]);
      assert forall other | other in entries && other != x :: other in rest;
      assert IsOldest(entries, if Precedes(x, entries[x], y, entries[y]) then x else y);
    }
  }

  function Oldest(entries: Entries): (ip: Ipv4Addr)
    requires |entries| > 0
    ensures IsOldest(entries, ip)
  {
    OldestExists(entries);
    var ip :| IsOldest(entries, ip);
    ip
  }

  /** Whether learning must make room first, given what is left after the expired entries went. */
  predicate MustEvict(live: Entries, maxEntries: nat, ip: Ipv4Addr) {
    ip !in live && |live| >= maxEntries > 0
  }

  /** Adds or replaces an entry, after evicting the oldest one where needed. */
  function Admit(live: Entries, maxEntries: nat, ip: Ipv4Addr, entry: CacheEntry): Entries {
    var room := if MustEvict(live, maxEntries, ip) then live - {Oldest(live)} else live;
    room[ip := entry]
  }

  function AfterLearn(s: CacheState, ip: Ipv4Addr, mac: MacAddress, now: nat): CacheState {
    if s.maxEntries == 0 then s
    else s.(entries := Admit(Unexpired(s.entries, s.ttl, now), s.maxEntries, ip, CacheEntry(mac, now)))
  }

  function AfterPurge(s: CacheState, now: nat): CacheState {
    s.(entries := Unexpired(s.entries, s.ttl, now))
  }

  function Found(entries: Entries, ip: Ipv4Addr): Option<MacAddress> {
    if ip in entries then Some(entries[ip].mac) else None
  }

  /** What the cache does with a received packet: requests and replies teach, anything else does not. */
  function AfterPacket(s: CacheState, packet: ArpPacket, now: nat): CacheState {
    if packet.operation.Unknown? then s else AfterLearn(s, packet.senderIp, packet.senderMac, now)
  }

  class ArpCache {
    var ipToMac: Entries
    const maxEntries: nat
    const ttl: nat

    function State(): CacheState
      reads this
    {
      CacheState(ipToMac, maxEntries, ttl)
    }

    constructor (maxEntries: nat, ttl: nat)
      ensures State() == CacheState(map[], maxEntries, ttl)
    {
      this.ipToMac := map[];
      this.maxEntries := maxEntries;
      this.ttl := ttl;
    }

    method RemoveExpired(now: nat) returns (removed: nat)
      modifies this
      ensures State() == AfterPurge(old(State()), now)
      ensures removed == |old(ipToMac)| - |ipToMac|
      ensures forall ip :: ip in ipToMac <==> ip in old(ipToMac) && IsFresh(old(ipToMac)[ip].learnedAt, ttl, now)
      ensures removed == |set ip | ip in old(ipToMac) && !IsFresh(old(ipToMac)[ip].learnedAt, ttl, now)|
    {
      var previous := ipToMac;
      ipToMac := Unexpired(ipToMac, ttl, now);
      ghost var expired := set ip | ip in previous && !IsFresh(previous[ip].learnedAt, ttl, now);
      assert previous.Keys == ipToMac.Keys + expired;
      removed := |previous| - |ipToMac|;
    }

    /** The minimum search by (instant, address). */
    method RemoveOldest()
      modifies this
      ensures ipToMac == if |old(ipToMac)| > 0 then old(ipToMac) - {Oldest(old(ipToMac))} else old(ipToMac)
    {
      var rest := ipToMac.Keys;
      var oldest: Option<Ipv4Addr> := None;
      while rest != {}
        invariant rest <= ipToMac.Keys && ipToMac == old(ipToMac)
        invariant oldest.None? ==> rest == ipToMac.Keys
        invariant oldest.Some? ==> oldest.value in ipToMac && oldest.value !in rest
        invariant oldest.Some? ==>
          forall other | other in ipToMac && other !in rest && other != oldest.value ::
            Precedes(oldest.value, ipToMac[oldest.value], other, ipToMac[other])
        decreases |rest|
      {
        var ip :| ip in rest;
        if oldest.Some? {
          PrecedesIsTotal(ip, ipToMac[ip], oldest.value, ipToMac[oldest.value]);
        }
        if oldest.None? || Precedes(ip, ipToMac[ip], oldest.value, ipToMac[oldest.value]) {
          oldest := Some(ip);
        }
        rest := rest - {ip};
      }
      if oldest.Some? {
        assert IsOldest(ipToMac, oldest.value);
        assert oldest.value == Oldest(ipToMac);
        ipToMac := ipToMac - {oldest.value};
      }
    }

    method Learn(ip: Ipv4Addr, mac: MacAddress, now: nat) returns (stored: bool)
      modifies this
      ensures State() == AfterLearn(old(State()), ip, mac, now)
      ensures stored == (maxEntries > 0)
    {
      if maxEntries == 0 {
        return false;
      }
      var _ := RemoveExpired(now);
      if ip in ipToMac {
        ipToMac := ipToMac[ip := CacheEntry(mac, now)];
        return true;
      }
      if |ipToMac| >= maxEntries {
        RemoveOldest();
      }
      ipToMac := ipToMac[ip := CacheEntry(mac, now)];
      stored := true;
    }

    method LearnFromPacket(packet: ArpPacket, now: nat) returns (stored: bool)
      modifies this
      ensures State() == AfterPacket(old(State()), packet, now)
      ensures stored == (!packet.operation.Unknown? && maxEntries > 0)
    {
      match packet.operation {
        case Unknown(_) => stored := false;
        case _ => stored := Learn(packet.senderIp, packet.senderMac, now);
      }
    }

    method LookupMac(ip: Ipv4Addr, now: nat) returns (mac: Option<MacAddress>)
      modifies this
      ensures State() == AfterPurge(old(State()), now)
      ensures mac == if ip in old(ipToMac) && IsFresh(old(ipToMac)[ip].learnedAt, ttl, now)
                     then Some(old(ipToMac)[ip].mac) else None
    {
      var _ := RemoveExpired(now);
      mac := if ip in ipToMac then Some(ipToMac[ip].mac) else None;
    }
  }
}
