# A verified model of the user-space IPv4 stack

The project models, and proves properties of, the core of the `tcpip-rs` stack: the Internet checksum and the
IPv4, ICMP, UDP, TCP, ARP and Ethernet codecs over it, the ARP cache and resolver, the passive-open TCP listener,
and the interface step that turns one received frame into at most one reply.

How it is organised:

- `NetTypes`, `Checksum`, `Ethernet`, `Arp`, `Ipv4`, `Icmp`, `Udp`, `Tcp`: the byte level. Each serialiser is a
  method that fills an array in place and is proved against a function (`Serialise`) that gives the bytes written,
  or the error and an untouched buffer. Parsers are functions. The theorems are the round trips in both directions
  and the rejection of every changed byte.
- `Cache`, `Resolver`, `Listener`, `Interface`: the stateful objects, as classes whose methods are proved equal to
  transition functions on their abstract states.
- `CacheHistory`, `ResolverHistory`, `ListenerHistory`, `InterfaceHistory`: what these transition functions lead to
  over whole runs, stated in terms of the history alone.
- `WireFormat`, `InterfaceBytes`: the formats by byte position and number, independently of the constants of the
  codecs, and the answers of the interface from the bytes received to the bytes sent.
- `InterfaceReplies`, `InterfaceOutcomes`, `InterfaceSafety`, `Resolution`: what the interface sends, exactly when it
  answers or rejects, that errors change nothing, that replies are not answered, and address resolution end to end.

Modelling choices: bytes and words are bounded integers, so every unintended overflow is a verification error and
wrap-around is written out; shifts and masks are division and remainder, `TcpFlags::contains` and `|` are bitwise
functions on numbers; instants and durations are natural numbers, and the largest representable instant is a
parameter (`lastInstant`) because `checked_add` depends on it; hash maps are maps; slices are sequences. A call
that reads the clock takes the time as a parameter. 0x0000 and 0xffff are the two zeros of ones' complement
arithmetic; `Canonical` is the one that the code computes.

Some properties hold only under a condition that the code does not check. Each is stated with its exact condition:

- Requests of the resolver keep their spacing if and only if the clock can represent the retry instants, for a whole
  episode (`FailureAfterAllAttempts`) and for one request (`PendingUntilRetry`); otherwise asking twice at one instant
  sends two requests (`OverflowRetriesAtOnce`).
- The cache keeps the most recently learned addresses, for every capacity and after every part of a run, if and only
  if the lessons of one instant come by ascending address (`RecencyIffAscending`); an input that shows the difference
  is in `OneInstantEvictsByAddress`.
- Replies are answered if and only if they are datagrams between two echo ports (`NoReplyToReply`). Interfaces do send
  such datagrams (`EchoToEchoIsSent`), and pass them back and forth without end (`EchoToEchoReturns`, `EchoNeverEnds`).
- A changed byte of a checked datagram or header is always noticed, except for those that turn off the UDP checksum or
  change how many bytes are covered, for which the exact condition is given (`DatagramByteChange`,
  `HeaderLengthChange`) with inputs that meet it (`ChecksumChangeAccepted`, `LengthChangeAccepted`,
  `HeaderLengthChangeAccepted`).
- A resolution is concluded if and only if the cache has room and a positive TTL (`RequestLeadsToResolution`).

The library builds ARP requests but does not frame them; `RequestFrame` in `Resolution` is the broadcast frame that
its tests build around a request (`src/arp.rs:551-558`).

## Model

| member | source | states |
|---|---|---|
| Checksum.ComputeChecksum | src/checksum.rs:1-20 | the two loops compute the complement of the folded word sum for input of any length, without overflowing 32 bits, and the final loop runs at most once, and only for odd lengths |
| Checksum.FoldClosedForm | src/checksum.rs:4-16 | repeated end-around carry is 0 only for 0 and otherwise the representative modulo 0xffff in 1..0xffff |
| Checksum.ChecksumZero | src/checksum.rs:19 | a buffer checks exactly if its word sum is a positive multiple of 0xffff |
| Checksum.ChecksumAllOnes | src/checksum.rs:19 | the checksum is 0xffff exactly if all bytes are zero |
| Checksum.SingleByteChangeDetected | src/checksum.rs:1-20 | changing any one byte of a buffer that checks makes it not check |
| Checksum.FillThenVerify | src/icmp.rs:148-150 | zeroing a 16-bit field at any even offset and storing the checksum there makes any buffer check, all-zero and odd-length ones included |
| Checksum.VerifyThenRefill | src/checksum.rs:1-20 | recomputing the field of a buffer that checks gives it back, except that 0xffff becomes 0 unless all other bytes are zero |
| Checksum.ComputeTransportChecksum | src/tcp.rs:265-283 | the grown vector is the pseudo-header followed by the transport bytes, and its checksum is returned |
| Checksum.TransportChecksumNotAllOnes | src/udp.rs:185-202 | a pseudo-header with a non-zero protocol number never lets the computed checksum be 0xffff |
| Checksum.TransportChecks | src/tcp.rs:265-283 | transport bytes check exactly if addresses, protocol number, length and bytes add up to a multiple of 0xffff |
| Ipv4.WriteTo | src/ipv4.rs:179-243 | the in-place writer produces the bytes of `Serialise` in front and leaves the rest of the buffer, or returns the first applicable error and leaves the whole buffer |
| Ipv4.Serialise | src/ipv4.rs:180-220 | serialising succeeds exactly for packets within the wire ranges that fit into the buffer, and writes the total length |
| Ipv4.ParseAfterSerialise | src/ipv4.rs:179-311 | every written packet parses back to itself with its protocol number named, whatever bytes follow it |
| Ipv4.SerialiseAfterParse | src/ipv4.rs:179-311 | every accepted packet is serialisable and reproduces its first total-length bytes, except that a checksum field of 0xffff comes back as 0 |
| Ipv4.HeaderByteChangeRejected | src/ipv4.rs:246-294 | every one-byte change to an accepted header that keeps its IHL is rejected |
| Ipv4.HeaderLengthChange | src/ipv4.rs:246-294 | a changed first byte is accepted exactly if version and new header length are possible and the bytes gained or lost balance the change modulo 0xffff |
| Ipv4.HeaderLengthChangeAccepted | src/ipv4.rs:246-294 | such a change exists: a written packet without options whose payload begins 0xfeff 0x0000 also parses with IHL 6 |
| Icmp.WriteTo | src/icmp.rs:106-152 | the in-place writer produces the bytes of `Serialise`, or leaves the buffer on the error |
| Icmp.ParseAfterSerialise | src/icmp.rs:59-152 | a written message parses back to itself exactly if echo types are not labelled unknown |
| Icmp.SerialiseAfterParse | src/icmp.rs:59-152 | every accepted message serialises to its bytes, up to the two zeros in the checksum field |
| Icmp.MessageByteChangeRejected | src/icmp.rs:82-84 | every one-byte change to an accepted message is rejected |
| Udp.SerialiseUdpDatagram | src/udp.rs:143-183 | the in-place writer produces the bytes of `Serialise`, or leaves the buffer on the error |
| Udp.ZeroRule | src/udp.rs:171-180 | the transmitted checksum is never 0, and is 0xffff exactly if the computed one is 0 |
| Udp.ParseAfterSerialise | src/udp.rs:78-183 | every written datagram validates, parses back to ports and payload and carries a checksum, whatever bytes follow it |
| Udp.SerialiseAfterParse | src/udp.rs:119-183 | every validated datagram with a checksum serialises to exactly its bytes |
| Udp.DatagramByteChange | src/udp.rs:119-141 | exactly which one-byte changes to such a datagram are accepted: of a port, checksum or payload byte those that make the checksum field zero, of a length byte those whose new length is possible and balances the sums modulo 0xffff |
| Udp.LengthChangeAccepted | src/udp.rs:119-141 | an accepted change of a length byte exists: a written datagram of even length followed by 0xfffb also validates with its length raised by 2 |
| Udp.ChecksumChangeAccepted | src/udp.rs:125-127 | an accepted change of a checksum byte exists: it turns the checksum 1 into 0, "no checksum" |
| Udp.AddressByteChangeRejected | src/udp.rs:119-141 | a datagram with a checksum is rejected if one byte of the two addresses differs |
| Tcp.WriteTo | src/tcp.rs:148-201 | the in-place writer produces the bytes of `Serialise` and leaves the bytes behind the segment, or returns the first applicable error and leaves the whole buffer |
| Tcp.ParseAfterSerialise | src/tcp.rs:148-263 | every written segment validates for its addresses and parses back to every field with reserved bits 0 |
| Tcp.SerialiseAfterParse | src/tcp.rs:148-263 | every validated segment with reserved bits 0 serialises to its bytes, up to the two zeros in the checksum field |
| Tcp.SegmentByteChangeRejected | src/tcp.rs:244-263 | every one-byte change to a validated segment is rejected |
| Tcp.AddressByteChangeRejected | src/tcp.rs:244-263 | a validated segment is rejected if one byte of the two addresses differs |
| Tcp.FlagBits | src/tcp.rs:15-44 | the low six bits of the flag byte are exactly the flags contained in it, FIN to URG |
| Ethernet.WriteTo | src/lib.rs:165-181 | the in-place writer produces header and payload, or leaves the buffer on the error |
| Ethernet.ParseAfterSerialise | src/lib.rs:112-181 | every written frame parses back, with its type number named |
| Arp.WriteTo | src/arp.rs:176-207 | the in-place writer produces the 28 bytes, or leaves the buffer on the error |
| Arp.ParseAfterSerialise | src/arp.rs:83-207 | every written packet with the lengths 6 and 4 parses back |
| WireFormat.EthernetByPosition | src/lib.rs:112-160 | which bytes are a frame, and its fields and type numbers by position |
| WireFormat.ArpByPosition | src/arp.rs:83-143 | which bytes are an ARP packet and its fields by position; otherwise the first reason that applies |
| WireFormat.Ipv4ByPosition | src/ipv4.rs:246-311 | a packet is accepted exactly if its lengths are possible, the reserved bit is clear and the header words add up to a multiple of 0xffff; its fields by position; otherwise the first reason that applies |
| WireFormat.IcmpByPosition | src/icmp.rs:59-104 | a message is accepted exactly if its words add up to a positive multiple of 0xffff and an echo has code 0 and eight bytes; types 8 and 0 are echo request and reply; fields by position; otherwise the first reason that applies |
| WireFormat.UdpByPosition | src/udp.rs:78-117 | the fields of a datagram by position; otherwise the first reason that applies |
| WireFormat.UdpValidity | src/udp.rs:119-141 | a datagram is valid exactly if it has no checksum or the sum with protocol number 17 is a multiple of 0xffff |
| WireFormat.TcpByPosition | src/tcp.rs:204-242 | the fields of a segment by position; otherwise the first reason that applies |
| WireFormat.TcpValidity | src/tcp.rs:244-283 | a segment is valid exactly if it fits and the sum with protocol number 6 is a multiple of 0xffff |
| WireFormat.NamedNumbers | src/lib.rs:63-70 | the numbers the writers use for types, operations and protocols |
| WireFormat.Ipv4Refusals | src/ipv4.rs:179-220 | exactly what the writer refuses, with the first reason that applies |
| WireFormat.TcpRefusals | src/tcp.rs:148-180 | exactly what the writer refuses, with the first reason that applies |
| WireFormat.UdpRefusals | src/udp.rs:143-165 | exactly what the writer refuses, with the first reason that applies |
| WireFormat.FixedRefusals | src/lib.rs:165-173 | frames, ARP packets and ICMP messages are refused exactly for lack of room |
| Cache.ArpCache.Learn | src/arp/cache.rs:39-65 | the map after a learn: expired entries gone, the oldest evicted only if needed, the new entry in |
| Cache.ArpCache.LearnFromPacket | src/arp/cache.rs:67-74 | requests and replies teach the sender, other operations teach nothing |
| Cache.ArpCache.LookupMac | src/arp/cache.rs:76-79 | the answer is the entry if its TTL is positive and not over; the entries that are expired are dropped |
| Cache.ArpCache.RemoveExpired | src/arp/cache.rs:81-89 | exactly the entries go whose TTL is zero or over, and their number is returned |
| Cache.ArpCache.RemoveOldest | src/arp/cache.rs:99-109 | the loop removes the one entry that no other precedes by instant and address |
| CacheHistory.CacheIsMostRecentLive | src/arp/cache.rs:39-109 | after any run whose lessons come by instant and address the cache holds exactly the live addresses with fewer than `max_entries` more recently learned ones, each as last learned |
| CacheHistory.RecencyIffAscending | src/arp/cache.rs:39-109 | under a non-decreasing clock that holds after every part of a run, for every capacity, if and only if the lessons of one instant come by ascending address |
| CacheHistory.OneInstantEvictsByAddress | src/arp/cache.rs:99-109 | lessons of one instant evict by address: in a cache for two, c, then the smallest address, then b leave c and b |
| CacheHistory.EntriesAreLastLearned | src/arp/cache.rs:39-65 | for any clock, entries are what was last learned and there are never more than `max_entries` |
| CacheHistory.LookupIsSound | src/arp/cache.rs:76-89 | for any clock, a hit is the MAC last learned for the address, less than a positive TTL after the lesson |
| CacheHistory.LookupIsExact | src/arp/cache.rs:76-89 | with the lessons in that order, a lookup hits exactly for the live, recent enough addresses |
| CacheHistory.EvictionIsLastResort | src/arp/cache.rs:44-63 | a learn evicts only from a cache full of live entries, and then the oldest |
| CacheHistory.TieBreakIsNumeric | src/arp/cache.rs:99-109 | the eviction order is by instant and then by the 32-bit number of the address |
| CacheHistory.ExtraReadsAreInvisible | src/arp/cache.rs:39-89 | under a non-decreasing clock, inserting lookups or purges anywhere changes no later answer and no eviction |
| Resolver.ArpResolver.Resolve | src/arp/resolver.rs:49-87 | the outcome and the whole new state, for every branch |
| Resolver.ArpResolver.Observe | src/arp/resolver.rs:89-96 | a packet that teaches the cache ends the pending resolution of its sender, any other changes nothing |
| ResolverHistory.ObserveEffect | src/arp/resolver.rs:89-96 | a request or reply makes its sender known and no longer pending if the cache has a capacity, and leaves all other pending targets; anything else changes nothing |
| ResolverHistory.InvHolds | src/arp/resolver.rs:49-96 | for any clock: no address is both pending and cached, attempts stay between 1 and `max_attempts`, and nothing is pending without attempts |
| ResolverHistory.CleanUpRemovesNothing | src/arp/resolver.rs:50-58 | the removals on a cache hit and without attempts never find an entry |
| ResolverHistory.PendingSummarisesEpisode | src/arp/resolver.rs:60-86 | the pending entry of a target is the number of requests of its episode and the retry instant of the last |
| ResolverHistory.ResolveByEpisode | src/arp/resolver.rs:49-109 | the answer at any time after any run, from the requests of the episode: a live cache entry is resolved; otherwise the first request is sent at once, the target is pending exactly until the retry instant of the last request, and then the next request is sent or, after `max_attempts`, the resolution fails |
| ResolverHistory.FailureAfterAllAttempts | src/arp/resolver.rs:60-109 | a failure ends an episode of exactly `max_attempts` requests; the requests and the failure are spaced by the retry interval if and only if no retry instant overflows the clock, and then the failure comes `max_attempts` intervals after the first request |
| ResolverHistory.FailureStartsOver | src/arp/resolver.rs:60-86 | after a failure the target is no longer pending, whatever happens until its next request, and that request counts as the first |
| ResolverHistory.PendingUntilRetry | src/arp/resolver.rs:60-109 | after a request, asking again within the retry interval is answered with pending at every instant, if and only if the clock can represent the retry instant |
| ResolverHistory.OverflowRetriesAtOnce | src/arp/resolver.rs:107-109 | asking twice at one instant sends two requests exactly if the interval is zero or the retry instant overflows |
| ResolverHistory.OtherTargetsDoNotInterfere | src/arp/resolver.rs:49-100 | under a non-decreasing clock, resolving other targets and asking the cache in between changes no outcome for a target |
| Listener.TcpListener.ReceiveSegment | src/tcp/listener.rs:76-96 | the action and the whole new table, for every branch |
| Listener.TcpListener.ReceiveInitialSyn | src/tcp/listener.rs:98-129 | the action and the whole new table for an acceptable SYN |
| Listener.TcpListener.CompleteHandshake | src/tcp/listener.rs:131-144 | the whole new table for an acceptable ACK |
| ListenerHistory.OpeningsAreFirstSyns | src/tcp/listener.rs:76-129 | the openings of a trace are the first acceptable SYNs of their four-tuples, in order |
| ListenerHistory.TableIsFunctionOfTrace | src/tcp/listener.rs:76-144 | after any trace the keys are the first `capacity` distinct four-tuples, the i-th with ISS `initial_sequence` + i modulo 2^32, and each entry is determined by its SYN and by whether an ACK of both numbers followed |
| ListenerHistory.EstablishedIffCompleted | src/tcp/listener.rs:131-144 | a connection is established exactly if it was admitted and acknowledged after its SYN |
| ListenerHistory.SequenceVariables | src/tcp/listener.rs:116-124 | in every reachable state SND.NXT is ISS+1, RCV.NXT is IRS+1 and SND.UNA is ISS or ISS+1 by state |
| ListenerHistory.IssPairwiseDistinct | src/tcp/listener.rs:114-115 | with capacity at most 2^32 no two connections share an ISS |
| ListenerHistory.StepIsLocal | src/tcp/listener.rs:76-144 | a segment changes at most the entry of its own four-tuple, and a SYN never changes an existing entry |
| ListenerHistory.ConnectionsOnlyProgress | src/tcp/listener.rs:76-144 | over any run no connection is removed, changes its numbers or regresses |
| ListenerHistory.SynAcksAreIdentical | src/tcp/listener.rs:98-110 | all SYN-ACKs ever sent for a four-tuple are the same |
| ListenerHistory.NoSynAckAfterEstablished | src/tcp/listener.rs:103-110 | no SYN-ACK is sent for an established connection |
| ListenerHistory.HandshakeCompletes | src/tcp/listener.rs:76-144 | whenever a SYN-ACK has been sent, an acceptable ACK of its two numbers, at any later place of the trace, makes the connection established from then on |
| ListenerHistory.RepliesAreFunctionOfTrace | src/tcp/listener.rs:76-129 | a SYN-ACK is sent exactly for the SYN that opened an admitted four-tuple or its repetition before completion, with the ISS of that place and the acknowledgement of that SYN |
| ListenerHistory.AcceptableSegments | src/tcp/listener.rs:158-176 | acceptable are exactly the segments without payload whose six flag bits are SYN alone, or ACK alone |
| ListenerHistory.KeysAgree | src/tcp/listener.rs:76-90 | two segments belong to one connection exactly if they have the same remote address and source port |
| ListenerHistory.OthersAreIgnored | src/tcp/listener.rs:76-96 | segments to another port, from port 0, with payload or with other flags change nothing and draw nothing |
| ListenerHistory.NewSynIsAnswered | src/tcp/listener.rs:98-129 | in every reachable table with room, a plain SYN of an unknown remote draws the SYN-ACK with the next ISS, its sequence number plus 1 and window 64240, and is entered |
| Interface.NetworkInterface.WithArpConfig | src/interface.rs:176-202 | the initial state, whose contents `InitialIsNew` spells out |
| Interface.NetworkInterface.ProcessFrameAt | src/interface.rs:208-227 | the result and the whole new state, for every branch |
| Interface.NetworkInterface.ProcessIcmpPacket | src/interface.rs:257-272 | echo reply path, with the length assertion of the source proved |
| Interface.NetworkInterface.ProcessUdpDatagram | src/interface.rs:274-298 | datagram path, with the length assertion of the source proved |
| Interface.NetworkInterface.ProcessTcpSegment | src/interface.rs:300-328 | segment path, with the listener moved before the reply is written |
| Interface.NetworkInterface.BuildIpv4Reply | src/interface.rs:330-370 | reply construction, with the length assertions of the source proved and the identification moved only on success |
| Interface.NetworkInterface.ProcessArpFrame | src/interface.rs:372-399 | ARP path, with observation before the answer |
| Interface.NetworkInterface.CachedMac | src/interface.rs:229-231 | the cache's answer, and nothing but the cache changed |
| InterfaceReplies.EchoRequestIsAnswered | src/interface.rs:208-272 | every echo request for this interface yields a frame that opens as its echo reply, endpoints turned round and identifier, sequence and payload kept, whatever options or padding it had |
| InterfaceReplies.DatagramIsEchoed | src/interface.rs:274-298 | every valid datagram to port 9000 from a non-zero port yields a frame that opens as a valid datagram with ports and endpoints swapped and the payload kept |
| InterfaceReplies.SynAckIsSent | src/interface.rs:300-328 | a SYN-ACK of the listener is always sent, and opens as a valid segment with exactly its numbers |
| InterfaceReplies.ArpIsAnswered | src/interface.rs:372-399 | every ARP packet is observed, and exactly the requests for this address yield a frame that opens as the reply |
| InterfaceBytes.ArpFramesAnswered | src/interface.rs:208-227 | exactly which ARP frames are answered, in bytes: to ff:ff:ff:ff:ff:ff or this station, Ethernet and IPv4, a request, for this address |
| InterfaceBytes.ArpReplyOverBytes | src/interface.rs:372-399 | the answer to such a frame byte by byte, and the lesson learned from it |
| InterfaceBytes.ForUsOverBytes | src/interface.rs:237-255 | exactly which frames carry a packet for this interface, in bytes |
| InterfaceBytes.EchoOverBytes | src/interface.rs:257-272 | an accepted message of type 8 comes back with type 0 and the same bytes behind the checksum, and is accepted again |
| InterfaceBytes.DatagramOverBytes | src/interface.rs:274-298 | a valid datagram to port 9000 from another port than 0, with or without a checksum, comes back valid with the ports exchanged, the same payload and a checksum |
| InterfaceBytes.SynOverBytes | src/interface.rs:300-328 | a balanced plain SYN to port 9000 of a new interface with room draws the 20 bytes of a valid SYN-ACK with ISS 0x12345678 plus the number of connections and its sequence number plus 1 |
| InterfaceOutcomes.OutcomeIsDetermined | src/interface.rs:208-399 | for every state and frame, exactly which frames are answered, rejected and ignored |
| InterfaceSafety.ErrorsChangeNothing | src/interface.rs:257-399 | no error of a serialiser is ever returned, and a frame answered with an error leaves the whole state as it was |
| InterfaceSafety.ErrorsNameTheirCause | src/interface.rs:208-399 | an error returned is the reason given by the layer that rejects the frame |
| InterfaceSafety.OnlyRepliesAreSent | src/interface.rs:208-399 | everything sent opens as an echo reply, a datagram from the echo port, a SYN-ACK or an ARP reply |
| InterfaceSafety.NoReplyToReply | src/interface.rs:208-399 | what one interface sends, no interface answers in any state, except a datagram between two echo ports |
| InterfaceSafety.EchoToEchoReturns | src/interface.rs:282-293 | such a datagram comes back with its payload, and is such a datagram again |
| InterfaceSafety.EchoNeverEnds | src/interface.rs:282-293 | passed on any number of times at any instants, such a datagram goes back and forth between the same two stations with the same payload |
| InterfaceSafety.EchoBetweenExists | src/interface.rs:282-293 | for any two interfaces and any payload that fits there is such a datagram |
| InterfaceSafety.EchoToEchoIsSent | src/interface.rs:282-293 | any interface can be made to send such a datagram to any other |
| InterfaceHistory.InitialIsNew | src/interface.rs:176-202 | the constructed state has the given addresses and ARP settings, nothing cached, pending or connected, and listens on port 9000 with capacity 64 and ISS 0x12345678 |
| InterfaceHistory.EveryFrameMovesAsDelivered | src/interface.rs:208-399 | for every state and frame, listener, resolver and identification move exactly as the segment or packet delivered says |
| InterfaceHistory.ListenerFollowsSegments | src/interface.rs:300-311 | after any run of received frames and cache questions the listener is where the delivered segments alone lead it |
| InterfaceHistory.TableIsFunctionOfFrames | src/interface.rs:208-328 | the TCP table of an interface is the function of the trace applied to the frames it received |
| InterfaceHistory.RepliesAreFunctionOfFrames | src/interface.rs:208-328 | over any run of a new interface, the i-th call, if it delivers a segment, draws a SYN-ACK exactly if that segment is answerable in the delivered trace, with the numbers the trace determines, and nothing otherwise |
| InterfaceHistory.NewSynFrameIsAnswered | src/interface.rs:300-328 | a frame with a plain SYN of an unknown remote to port 9000, to a new interface after any run that leaves fewer than 64 connections, draws that SYN-ACK |
| InterfaceHistory.HandshakeOverFrames | src/interface.rs:208-328 | over any run of a new interface, a call that draws a frame opening as a SYN-ACK and a later call that delivers an acceptable ACK of the two numbers in that frame leave the connection established |
| InterfaceHistory.CacheIsFunctionOfFrames | src/interface.rs:208-235 | the ARP cache of an interface is the most recent live part of the lessons in the frames it received, if they come by instant and address |
| InterfaceHistory.IdentificationCountsPackets | src/interface.rs:330-370 | the identification field counts the IPv4 packets sent, modulo 2^16 |
| WireFormat.WrapAround | src/interface.rs:366-368 | the wrapping additions are the sums modulo 2^16 and 2^32 |
| Resolution.RequestLeadsToResolution | src/arp/resolver.rs:49-96 | a request of the resolver, broadcast, is answered by the interface that has the address; then the resolver resolves it to that interface if and only if its cache has room and a positive TTL, and, with a cache within its bound, the same holds for the interface and the address of the resolver |

## Left out

- Device access, the receive loop, the packet summaries and the command line (`src/device.rs`, `src/device/tap.rs`, `src/runtime.rs`, `src/main.rs`): no protocol logic.
- `Display`, `Error::source` and `From` for the errors: the errors are datatypes, conversions are constructor calls.
- `process_frame` and `NetworkInterface::new`: they only supply the present instant and default ARP settings.
- `fragment_offset_bytes`, `len`, `is_empty`, `pending_count`, `connection`: one-line reads.
- The hardware and protocol type fields of `ArpPacket`: each has a single possible value.
- Lifetimes and aliasing of parsed slices: a parsed payload is a sequence of its own.
- The limits of `usize`: lengths are unbounded, as a slice never comes near them.
- Iteration order and capacity of hash maps: no modelled result depends on them.
- CacheHistory.CacheIsMostRecentLive: asks for a clock that does not run backwards and for lessons of one instant by ascending address, outside of which it fails for some capacity (`RecencyIffAscending`); for every clock there is `EntriesAreLastLearned`.
- CacheHistory.LookupIsExact: asks for the same order of lessons; for every clock there is `LookupIsSound`.
- InterfaceHistory.CacheIsFunctionOfFrames: asks for the same order of lessons.
