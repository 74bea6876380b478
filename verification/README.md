# Verification of udp-proxy-2020

udp-proxy-2020 captures UDP datagrams on each of its interfaces, learns who sent them, and sends a
rewritten copy out of every other interface: to each client known there, or else to the broadcast
address. This project is a Dafny model of that relay and of its recovery from interfaces that come
and go, with proofs about single packets and about every interleaving of its goroutines.

Run `dafny verify dfyconfig.toml` in this directory.

## Structure

| file | what it models |
|---|---|
| `Net.dfy`, `Text.dfy`, `Sequences.dfy`, `Wrappers.dfy` | bytes, 16-bit fields, Go's address forms, decimal and dotted-quad text with its readers |
| `Checksum.dfy` | the Internet checksum of section 1 of RFC 1071 |
| `Wire.dfy` | printing and decoding of Ethernet, loopback and raw frames, IPv4 (section 3.1 of RFC 791) and UDP (RFC 768) |
| `Rewrite.dfy` | `PacketForEgress`: the frame for another link |
| `BpfFilter.dfy` | `BuildBPFFilter`, and the filter language of pcap-filter(7) with its meaning |
| `Backoff.dfy` | the waits of the two reconnect loops |
| `Transmitter.dfy` | `TransmitterSink` as a class, and all interleavings of Write, Close and the reconnect loop |
| `DeviceManager.dfy` | the cache of libpcap handles |
| `PcapSource.dfy` | `PcapSource` as a class, and all interleavings of monitors and readers around the cache |
| `Registry.dfy` | `RegistryProcessor` as a class, and its map as a function of the history of learns and cleanups |
| `RouteSink.dfy` | `RouteSink` as a class: target choice, fan-out, close |
| `Pipeline.dfy` | `Pipeline` as a class, and the wiring of the interfaces |
| `Router.dfy` | all pipelines, the shared registry and the cleanup ticker as one interleaved system |

A class mirrors the fields and methods of a Go type; its methods are proved equal to functions, and
the theorems are about those functions. Where several goroutines share state, these functions make up
the steps of a state machine, one per critical section or gap between two of them, and the theorems
hold after every finite schedule of enabled steps. A method that has several critical sections is
several steps there; `AnAttemptIsOneCall` shows that those of `CreateReaderHandle` amount to the method.

## What is taken as given

- Time is a natural number that never runs backwards, and never is Go's zero time.
- Interface names are distinct, with one source per interface, as the duplicate check ensures for the listed ones.
- No fixed address is an IPv6 text. The code files a fixed entry under the configured text and a
  learned one under the printed address; on dotted quads the two agree (`ParsedIpPrintsBack`).
- The decoder is strict: a header, a length field or a datagram that is cut short is not decoded.
- The byte order of the loopback header and whether the host is OpenBSD are parameters.

## Findings

- The filter text does not compile if and only if a port is outside 0..65535 or an IPv4 address carries
  a mask of more than 32 ones (`FilterCompilesIff`). `PortTooLarge` is the first at 65536, which the
  32-bit port option accepts. `MaskTooLong` is the second at an IPv4 address in its sixteen-byte form with
  a sixteen-byte /96 mask, for which `GetNetwork` prints `<nil>/96`; as far as libpcap pairs sixteen-byte
  masks with IPv6 addresses only, that takes an IPv4-mapped interface address.
- A closed transmitter may leave a handle open. `DroppedIff` says exactly which: a handle is dropped if and
  only if a reconnect loop holds it when it finds the sink cancelled, at most once for each sink
  (`HandlesAreConserved`), and `ClosedSinkHasClosedItsHandles` says that all others are closed.
  Seen from the caller of `Close`, as long as no write fails a handle can be lost if and only if the sink has
  no writer at that moment (`CloseMayDropIff`); a write that fails after the cancellation can always
  lead there (`AFailedWriteMayDrop`). `AHandleCanBeDropped` is one such run.

## Model

| member | source | states |
|---|---|---|
| Checksum.FoldIsResidue | internal/proxy/rewrite/rewrite.go:78-78 | ComputeChecksums rests on this: folding carries keeps the sum modulo 65535 and tells zero from all ones |
| Checksum.WordSumIsByteSum | internal/proxy/rewrite/rewrite.go:78-78 | the sum of the words is the sum of the bytes, those at even positions counting 256 times, also when the last word lacks its second byte |
| Checksum.PaddingIsNeutral | internal/proxy/rewrite/rewrite.go:78-78 | a zero behind the last byte does not change the sum |
| Checksum.VerifiesIff | internal/proxy/rewrite/rewrite.go:78-78 | a block verifies if and only if that sum of its bytes is a multiple of 65535 other than zero |
| Checksum.ChecksumVerifies | internal/proxy/rewrite/rewrite.go:78-78 | storing the computed checksum in its field makes the block verify at a receiver, for any content of odd or even length, also in the all-ones form of zero |
| Checksum.OneWordErrorIsNoticed | internal/proxy/rewrite/rewrite.go:78-78 | background on the checksum that is stored there: a verifying block in which one word is replaced verifies if and only if the two words are the same one's complement number |
| Wire.DecodedUdpFits | internal/proxy/rewrite/rewrite.go:129-140 | on every link a decoded UDP layer comes with an unfragmented IPv4 layer, and its payload and 28 header bytes fit into the frame and into one datagram |
| Wire.DecodePrintedDatagram | internal/proxy/rewrite/rewrite.go:57-72 | decoding a printed datagram gives back all its fields, whatever padding follows it |
| Wire.DecodeLosesDatagram | internal/proxy/rewrite/rewrite.go:57-72 | a fragment or an oversized datagram is not decoded back; together with the row above this is exact |
| Wire.PrintedLengthsAreExact | internal/proxy/rewrite/rewrite.go:78-78 | both 16-bit length fields count the bytes they head, and the UDP checksum is never sent as zero |
| Wire.Ipv4ChecksumVerifies | internal/proxy/rewrite/rewrite.go:57-67 | every printed IPv4 header verifies |
| Wire.UdpChecksumVerifies | internal/proxy/rewrite/rewrite.go:69-75 | pseudo header, UDP header and payload sum to all ones for every payload |
| Wire.PaddedUdpVerifies | internal/proxy/rewrite/rewrite.go:69-75 | written out in bytes, source, destination, 0, 17, length and segment, padded to whole words, sum to a non-zero multiple of 65535 |
| Wire.PrintedDatagramBytes | internal/proxy/rewrite/rewrite.go:57-72 | the offset and value of every field of a printed datagram, with TOS 0, header length 20 and protocol 17 |
| Wire.DecodedDatagramBytes | internal/proxy/rewrite/rewrite.go:129-140 | which bytes decode to IPv4 and to UDP, as an if and only if, and the offset of every field read |
| Wire.DecodedFrameBytes | internal/proxy/rewrite/rewrite.go:129-140 | which link numbers carry a datagram, and behind which link header |
| Rewrite.PacketForEgress | internal/proxy/rewrite/rewrite.go:27-127 | the layers collected step by step serialize to the one frame that the carried datagram and the options determine, or give the first of the seven errors |
| Rewrite.SerializeIsFrame | internal/proxy/rewrite/rewrite.go:80-113 | serializing the collected headers from the last to the first gives the frame of the carried datagram, and fails exactly when an address or a MAC has a wrong length |
| Rewrite.DeliveredIffWhole | internal/proxy/rewrite/rewrite.go:109-140 | the re-parsed frame holds exactly the carried datagram if and only if that is no fragment and fits |
| Rewrite.CapturedIsDelivered | internal/proxy/rewrite/rewrite.go:57-140 | for every captured packet and each link family, decoding the output gives the original source, ports, TTL, id, flags, fragment offset and payload, the target as destination and the chosen MACs |
| Rewrite.LengthsAndChecksumsAreExact | internal/proxy/rewrite/rewrite.go:57-113 | the output datagram is no longer than the captured frame, its lengths are exact and both its checksums verify |
| Rewrite.SucceedsIff | internal/proxy/rewrite/rewrite.go:27-113 | when a captured packet can be rewritten: it has UDP, the target is IPv4, and the link is raw, loopback or Ethernet with usable MACs |
| Rewrite.EgressBytes | internal/proxy/rewrite/rewrite.go:50-113 | every byte of a frame but the checksums: MACs, type and padding on Ethernet, family on loopback, and a datagram with the fields of the packet; an empty UDP payload is replaced by the application payload |
| Rewrite.ErrorsAre | internal/proxy/rewrite/rewrite.go:27-107 | which of the errors the caller gets, in conditions on the inputs |
| Rewrite.EgressDependsOnCarried | internal/proxy/rewrite/rewrite.go:27-127 | two packets that carry the same datagram are rewritten alike, errors included |
| Rewrite.RewritingTwiceIsRewritingOnce | internal/proxy/rewrite/rewrite.go:27-127 | rewriting a rewritten packet to a second target and link gives what rewriting the original gives, whatever the first target and link were |
| BpfFilter.LeadingOnesIsPrefixLength | internal/config/utils.go:58-58 | the leading ones of a mask are n exactly when its bytes are n ones followed by zeros |
| BpfFilter.MaskSizeIs | internal/config/utils.go:30-30 | the size of a mask of any length is the number of its ones, and 0 when a one follows a zero |
| BpfFilter.MaskedBits | internal/config/utils.go:59-60 | masking keeps the first n bits and clears the others |
| BpfFilter.MaskedIsPrefix | internal/config/utils.go:59-60 | two addresses mask alike exactly when their first n bits agree (section 3.1 of RFC 4632) |
| BpfFilter.NetworkMeaning | internal/config/utils.go:28-33 | the printed network is read back as the masked address and its length, and does not parse when the mask has more than 32 ones |
| BpfFilter.BuildBPFFilter | internal/config/utils.go:13-44 | the loops build the text of the two groups; no port gives the empty text |
| BpfFilter.ParseTwoGroups | internal/config/utils.go:22-41 | the parentheses keep the two groups apart although `and` and `or` have equal precedence: the text parses to one conjunction |
| BpfFilter.FilterCompilesIff | internal/config/utils.go:13-61 | the text is in the language if and only if all ports are ports and no tested address has bit 32 of its mask set |
| BpfFilter.PortTooLarge | internal/config/utils.go:18-20 | the text for port 65536 does not compile |
| BpfFilter.MaskTooLong | internal/config/utils.go:28-30 | the text for an IPv4 address in sixteen bytes with a sixteen-byte /96 mask does not compile, whatever the port |
| BpfFilter.FilterAccepts | internal/config/utils.go:13-61 | a text in the language accepts exactly the UDP packets on a listed port whose source, if any address is tested, agrees with one of these in every bit set in its netmask; tested are the IPv4 addresses with a mask of ones and then zeros that starts with a one |
| BpfFilter.TextAsExpected | internal/config/utils_test.go:56-67 | the text of the first builder test |
| Backoff.DelayIsCappedDoubling | internal/proxy/stages/transmitter.go:92-117 | the wait before attempt k is min(2^k, 30) seconds |
| Backoff.TotalWaitIs | internal/proxy/stages/pcap_source.go:122-144 | n waits total 2^n - 1 seconds up to five and 31 + 30(n - 5) from there |
| Backoff.Reconnect | internal/proxy/stages/transmitter.go:92-117 | the loop ends at the first attempt that finds the interface, less than 30 seconds after that became possible, or when cancelled no later than its next attempt; on a tie of timer and cancellation either may win |
| Transmitter.TransmitterSink.constructor | internal/proxy/stages/transmitter.go:24-44 | bridge to the initial state: a new sink holds the given handle, is not cancelled and is not reconnecting |
| Transmitter.TransmitterSink.Write | internal/proxy/stages/transmitter.go:50-80 | a packet that finds a writer is written to it once; after a failure the writer is closed and a loop started unless one is running; without packet or writer nothing happens |
| Transmitter.TransmitterSink.Install | internal/proxy/stages/transmitter.go:119-129 | bridge to a step: a fresh handle becomes the writer unless the sink was cancelled |
| Transmitter.TransmitterSink.Close | internal/proxy/stages/transmitter.go:134-146 | bridge to the steps of Close: cancels, leaves no writer, and hands out the one to close |
| Transmitter.EveryRunKeepsTheInvariant | internal/proxy/stages/transmitter.go:50-146 | the invariant of the sink holds after every schedule of any number of writes, closes and loop steps |
| Transmitter.HandlesAreUsedSafely | internal/proxy/stages/transmitter.go:54-80 | no handle is written after it was closed, none is closed twice, there is at most one loop, and before cancellation there is one exactly when there is no writer |
| Transmitter.EveryWriteIsDone | internal/proxy/stages/transmitter.go:54-80 | in every run the writes are, in order, one for each Write step that found a writer, to that writer and with its outcome |
| Transmitter.HandlesAreConserved | internal/proxy/stages/transmitter.go:63-146 | a handle was opened if and only if it is in one place: writer, loop, closer, closed once or dropped; at most one handle is ever dropped |
| Transmitter.AHandleCanBeDropped | internal/proxy/stages/transmitter.go:119-123 | a run of five steps after which handle 1 is dropped and not closed |
| Transmitter.DroppedIff | internal/proxy/stages/transmitter.go:119-123 | in every run a handle is dropped if and only if some step is a loop that holds it coming to the mutex after the cancellation |
| Transmitter.CloseMayDropIff | internal/proxy/stages/transmitter.go:119-146 | from every reachable state that is not cancelled, some continuation without a failing write drops a handle if and only if there is no writer |
| Transmitter.AFailedWriteMayDrop | internal/proxy/stages/transmitter.go:60-71 | with failing writes some continuation always drops one |
| Transmitter.AWriterCanComeBack | internal/proxy/stages/transmitter.go:87-132 | from every reachable state that is not cancelled some continuation without a failing write has a writer again |
| Transmitter.ClosedSinkHasClosedItsHandles | internal/proxy/stages/transmitter.go:134-155 | when a closed sink has come to rest a handle was closed if and only if no loop held it when it found the sink cancelled |
| Transmitter.CloseIsFinal | internal/proxy/stages/transmitter.go:119-146 | after a step that is the critical section of a Close the writer is nil for ever, no Write step finds a writer, nothing is written and no loop starts, even if a loop was holding a fresh handle |
| Transmitter.CloseReturns | internal/proxy/stages/transmitter.go:134-146 | a Close call comes to its end by at most three steps of its own from every state, and has then closed the writer that it found |
| Transmitter.LoopsBackOff | internal/proxy/stages/transmitter.go:92-117 | in every run the delay of a waiting loop is the capped doubling for the number of steps in which that loop failed to open |
| DeviceManagers.KeyIsInjective | internal/proxy/device_manager.go:28-30 | a cache key determines its interface and its direction, whatever characters the name has |
| DeviceManagers.ValidLinkTypesAre | internal/proxy/device_manager.go:125-137 | the accepted link numbers on each system; all of them are links that the rewriter serves |
| DeviceManagers.DeviceManager.CreateReaderHandle | internal/proxy/device_manager.go:77-137 | returns the cached handle, or opens, checks and caches one; a handle that is refused after opening is closed |
| DeviceManagers.DeviceManager.Close | internal/proxy/device_manager.go:272-285 | removes exactly one entry and closes exactly its handle |
| DeviceManagers.DeviceManager.CloseHandles | internal/proxy/device_manager.go:178-187 | closes every cached handle once and empties the cache |
| PcapSources.PcapSource.Monitor | internal/proxy/stages/pcap_source.go:77-103 | one tick: the field says whether the interface was gone, and a tick that sees it come back fills the slot |
| PcapSources.PcapSource.Reconnect | internal/proxy/stages/pcap_source.go:114-155 | closes the old handle, then exactly the handles that were opened and found unusable; waits with capped doubling; ends at the first usable answer, which becomes handle and cache entry, or at cancellation with neither |
| PcapSources.PcapSource.Close | internal/proxy/stages/pcap_source.go:193-198 | stops the monitor, and removes and closes the cached reader of the interface |
| PcapSources.EveryRunIsRight | internal/proxy/stages/pcap_source.go:114-198 | handles, cache and phase of every source fit together after every schedule |
| PcapSources.HandleAtHeadIsTheOnlyOpenReader | internal/proxy/stages/pcap_source.go:160-190 | at the head of the read loop the handle is open, is the cached one and is the only open reader of the interface; no handle is closed twice |
| PcapSources.ReconnectNeverReturnsAClosedHandle | internal/proxy/stages/pcap_source.go:114-155 | the handle that a reconnect installs was never closed before |
| PcapSources.NoRecoveryIsLost | internal/proxy/stages/pcap_source.go:77-103 | after two successive ticks that see the interface go and come back, the signal is pending and can be taken at the head of the loop, or it was taken later and that reconnect has ended when the reader is back at the head |
| PcapSources.RecoveryIsSignalled | internal/proxy/stages/pcap_source.go:93-101 | after such a pair of ticks the slot is full until a step takes the signal |
| PcapSources.ReconnectsAreCounted | internal/proxy/stages/pcap_source.go:160-181 | the steps that take a signal never outnumber the recoveries seen by the ticks, and at the head as many reconnects have ended as have started |
| PcapSources.AnAttemptIsOneCall | internal/proxy/device_manager.go:77-123 | the steps of one attempt with nothing in between have the effect of one call of CreateReaderHandle |
| PcapSources.AReaderCanComeBack | internal/proxy/stages/pcap_source.go:114-155 | from every reachable state in which a reader is reconnecting, steps of its own lead to the head of its loop with an open, cached handle |
| PcapSources.AnOutageIsRecoveredFrom | internal/proxy/stages/pcap_source.go:77-155 | from every reachable state at the head, an outage seen by two ticks can be followed by a reconnect to a new, open handle, the old one being closed |
| PcapSources.AClosedChannelIsRecoveredFrom | internal/proxy/stages/pcap_source.go:172-179 | so can a closed packet channel |
| PcapSources.AClosedSourceLeavesNothingOpen | internal/proxy/stages/pcap_source.go:193-198 | a source that was closed is not monitored and leaves no reader of its interface open |
| PcapSources.ASourceCanEnd | internal/proxy/stages/pcap_source.go:160-198 | from the head of the loop, cancellation and Close end a source |
| Registry.KeyIsInjective | internal/proxy/stages/registry.go:228-230 | a client key determines interface and address, even when the interface name contains the separator |
| Registry.ParsedIpPrintsBack | internal/proxy/stages/registry.go:54-64 | a fixed address that is a dotted quad prints as it was configured, so fixed and learned entries meet under one key |
| Registry.ParsedIpIff | internal/proxy/stages/registry.go:54-58 | exactly the dotted quads are addresses, each parsed to what it prints |
| Registry.SenderOfACapture | internal/proxy/stages/registry.go:136-156 | what a capture teaches are, on every link, the source address bytes behind the link header, and on Ethernet bytes 6 to 11 of the frame |
| Registry.RegistryProcessor.ByInterface | internal/proxy/stages/registry.go:51-72 | for texts that are not IPv6: the map holds exactly the configured addresses, each with its interface, the zero time and no MAC, or an error names a configured text that is no address |
| Registry.RegistryProcessor.ProcessForInterface | internal/proxy/stages/registry.go:127-189 | always keeps the packet; the map changes by its sender and nothing else, and not at all for an immortal entry |
| Registry.RegistryProcessor.Cleanup | internal/proxy/stages/registry.go:192-205 | exactly the learned entries older than TTL are gone |
| Registry.RegistryProcessor.GetClientsForInterface | internal/proxy/stages/registry.go:106-117 | lists each entry of the interface once and no other, one for each of its keys |
| Registry.KnownIffRecentlySeen | internal/proxy/stages/registry.go:167-205 | a client that is not fixed is known if and only if every cleanup after its last packet ran at most TTL after it; the entry holds the address, interface, time and MAC of this packet |
| Registry.FixedClientsStay | internal/proxy/stages/registry.go:167-205 | a fixed client stays as configured through every history |
| Registry.KnownClientsAreFresh | internal/proxy/stages/registry.go:106-117 | with a cleanup in every period a known learned client was seen within TTL and one period |
| Registry.ForgottenOnlyAfterTtl | internal/proxy/stages/registry.go:192-205 | a learned client that is gone was removed by a cleanup more than TTL after its last packet |
| Registry.FixedKeysMatch | internal/proxy/stages/registry.go:51-72 | every configured entry is filed under its own interface and printed address |
| Registry.ReplayKeepsKeys | internal/proxy/stages/registry.go:165-186 | so is every entry after every history |
| Registry.ListedAddressesAreDistinct | internal/proxy/stages/registry.go:106-117 | no address is listed twice for an interface, in either of its two lengths |
| Routing.RouteSink.TargetsForPacket | internal/proxy/stages/route_sink.go:96-122 | a target is returned if and only if it is a client known on the interface at that moment, with its address and MAC, or the broadcast address when none is; one for each known client, in the order of the listing |
| Routing.RouteSink.WriteToTarget | internal/proxy/stages/route_sink.go:57-94 | every nested sink gets the rewritten copy if the rewrite succeeds and every processor keeps it, and nothing otherwise |
| Routing.RouteSink.Write | internal/proxy/stages/route_sink.go:38-54 | every nested sink gets the same copies, in target order, and nothing else |
| Routing.RouteSink.Close | internal/proxy/stages/route_sink.go:124-132 | every nested sink is closed once, also after a failure, and the first error in sink order is returned |
| Routing.TargetsAreDistinct | internal/proxy/stages/route_sink.go:99-112 | no address is targeted twice for one packet |
| Routing.TargetsAreKnown | internal/proxy/stages/route_sink.go:96-122 | a target carries the address and MAC of a client known on the interface, or the broadcast address exactly when none is known and there is one |
| Routing.LearningDoesNotDisturbRouting | internal/proxy/stages/route_sink.go:96-122 | learning a sender first or last gives the same listing on every other interface |
| Routing.CanServeIff | internal/proxy/stages/route_sink.go:57-70 | the rewrite for a target succeeds if and only if it has an IPv4 address and, on Ethernet, a usable MAC or leave to broadcast |
| Routing.EveryTargetIsOfferedOneCopy | internal/proxy/stages/route_sink.go:43-93 | the copies correspond one to one and in order to the targets that survive rewrite and processors, each the unchanged original but for its destination |
| Routing.AllServedTargetsSurvive | internal/proxy/stages/route_sink.go:43-93 | without processors no target that the link can serve is lost |
| Pipelines.Pipeline.Run | internal/proxy/pipeline.go:38-81 | each processor is asked about exactly the packets that the earlier ones kept; the ends of each sink receive, for exactly those that all kept and in order, the packet or what the route offers to the targets of a snapshot; all is closed once when the source ends and not before |
| Pipelines.Pipeline.Handle | internal/proxy/pipeline.go:55-79 | for one packet every nested sink of every route receives exactly the offers of that route to the targets of its snapshot if all processors keep the packet, and nothing otherwise |
| Pipelines.WhatArrives | internal/proxy/pipeline.go:41-53 | what each kind of read contributes |
| Pipelines.WhatIsKept | internal/proxy/pipeline.go:55-72 | keeping goes packet by packet and in order, and takes every processor |
| Pipelines.Pipeline.CloseAll | internal/proxy/pipeline.go:83-92 | the source, and every end of every sink, are closed once each |
| Pipelines.AttachCrossInterfaceSinks | cmd/udp-proxy-2020/main.go:141-154 | adds the links of all pairs of different names in order, or stops at the first that fails with those before it added |
| Pipelines.EveryOtherInterfaceIsLinkedOnce | cmd/udp-proxy-2020/main.go:141-154 | with distinct names every interface gets exactly one sink for each other one and none for itself |
| Pipelines.CheckDuplicateInterfaces | cmd/udp-proxy-2020/main.go:353-362 | passes if and only if the names are distinct |
| Router.EveryRunKeepsTheInvariant | cmd/udp-proxy-2020/main.go:83-107 | registry, captures, pipelines and transmissions fit together after every schedule of all pipelines and the ticker |
| Router.EveryTransmissionIsJustified | internal/proxy/stages/route_sink.go:38-122 | every frame was caused by a packet captured on another interface and decodes to it with all fields, flags, fragment offset and metadata unchanged but for the destination; on the link of the egress interface it goes to the address of a client in the registry at the snapshot, on Ethernet to the MAC of that entry if it has one, or to the broadcast address when no client was known; every processor of that route keeps it |
| Router.NoAddressIsServedTwice | internal/proxy/stages/route_sink.go:99-112 | over a whole run no packet is sent twice to one address on one interface |
| Router.ServedClientsAreFresh | cmd/udp-proxy-2020/main.go:83-96 | with a cleanup in every period, a client that is served was fixed or seen within TTL and one period of the snapshot |
| Router.ACleanUpForgets | cmd/udp-proxy-2020/main.go:83-96 | in every reachable state the ticker's step removes exactly the learned clients older than TTL, and is recorded |
| Router.ALearnRemembers | internal/proxy/stages/registry.go:167-186 | in every reachable state learning from a packet leaves its sender known on the interface of the pipeline, fixed or seen now |
| Router.EveryTargetIsServed | cmd/udp-proxy-2020/main.go:304-333 | for a finished packet and every other interface there is one snapshot such that the frames it caused there are exactly, in order, the offers of the route to the targets of that snapshot, one for each that the link can serve and the processors keep |
| Router.EveryRunLeavesNothingOut | cmd/udp-proxy-2020/main.go:141-154 | after every schedule what was sent and what is pending of each plan make up the offers of its route, and finished packets were planned for all other interfaces |
| Router.EveryLearnedClientHasSent | cmd/udp-proxy-2020/main.go:234-239 | a client that was not configured has itself sent an IPv4 UDP packet captured on its interface, and the entry carries that interface, address and MAC |
| Router.SendersAreLearnedBeforeTheirPacketIsRouted | cmd/udp-proxy-2020/main.go:234-239 | the sender of a packet entered the registry before the targets of any frame it causes were read |
| Router.NoPacketIsLost | internal/proxy/pipeline.go:41-80 | every captured packet is in work, or was dropped by the filter, or has been learned from and fanned out |
| Router.NoPipelineIsStuck | cmd/udp-proxy-2020/main.go:98-107 | deadlock-freedom: in every reachable state a pipeline that works on a packet has an enabled step of its own |
| Router.OnlyOwnStepsCount | cmd/udp-proxy-2020/main.go:98-107 | a measure over interfaces and targets left: no step of others changes the work of a pipeline, and each of its own steps takes away from it |
| Router.EveryPacketCanFinish | internal/proxy/pipeline.go:41-80 | from every reachable state the steps of a pipeline alone bring its packet to an end |
| Router.EveryKeptPacketCanBeFannedOut | internal/proxy/pipeline.go:41-80 | from every reachable state a captured packet that the filter keeps can be fanned out by its pipeline alone |
| Router.APacketIsFannedOut | internal/proxy/pipeline.go:41-80 | a UDP packet on an idle pipeline can be captured and fanned out |

## Left out

- libpcap, sockets, files, real clocks and the goroutine scheduler: they are parameters or steps that may succeed or fail.
- What gopacket accepts beyond the standards (zero or wrong length fields, truncated datagrams, other VLAN or link headers) and its decoding of UDP payloads by port number; the filter's test for a decode error is the strict decoder finding no UDP layer.
- TOS and IP options: the code does not carry them, so nothing is claimed about them.
- IPv6 targets and the text of IPv6 addresses; an address that is not IPv4 prints as a hexadecimal placeholder.
- Registry.RegistryProcessor.ByInterface: excludes texts with a colon, since the text of IPv6 addresses is not modelled; fixed and learned entries of such an address may differ in key.
- Registry.ParsedIpPrintsBack: is about dotted quads only, for the same reason.
- Router.EveryTransmissionIsJustified: a frame counts as sent when it is handed to the transmitter, which drops it while it is reconnecting.
- Router.NoPacketIsLost: says that a packet is finished, dropped or in work; that its pipeline is scheduled again is up to the Go runtime.
- PcapSource.Read is modelled as the steps of the state machine of `PcapSources`, not as a method.
- Pipelines.Pipeline.Run: a processor is a pure verdict, so that learning as a processor, and with it a registry that changes between two packets, appears only in `Router`.
- In `Router` a route hands its copies to one transmitter; a pcap file next to it gets the same copies, as `RouteSink.Write` shows.
- Whether a nested sink or a pipeline sink reports a write error: the code only logs it.
- A handle that a reconnect opens has no filter installed, because the filter is set only at setup; the filter theorems are about the expression.
- Two CreateReaderHandle calls for one name at the same time, whose check and store are separate critical sections; excluded by one source per interface.
- A loopback interface that is also listed explicitly, since the duplicate check runs before loopback is added.
- CloseHandles at exit is proved by itself but is not a step of the interleaved model of the sources; neither is the monitor that is never started because no availability test is set.
- DeviceManager: Refresh, InterfaceAvailable, GetAddresses, GetLoopback and the uncached writer handles, whose results enter as parameters.
- RegistryProcessor: GetClients, Has, Len and the constructor without interfaces, which the program does not use for routing.
- discoverBroadcastAddress and getFixedIPs: where the broadcast address and the fixed addresses come from.
- The graph output, the command line, decode output, UDP listeners, the pcap file sink, and the bus, forwarding and transform stages that the program does not wire.
