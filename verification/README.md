# Verification model of the capture analyzer

A Dafny model of the parts of the analyzer that carry state or arithmetic, with proofs of what they promise:

- the two reassemblers, which rebuild IP datagrams from fragments and the head of each TCP direction from segments,
  over a shared buffer with a sorted list of filled ranges (`Ranges`, `HeadBuffer`, `Ip*`, `Tcp*`);
- the framing of HTTP, TLS and DNS that decides when a rebuilt message is whole (`Apps`, `Framing`);
- DNS name decompression and the message walk (`Dns*`);
- timestamps and the civil calendar (`Clock`);
- the pcap writer and reader and the pcapng block reader, over byte sequences (`Capture*`, `Pcapng`, `Section*`);
- threat-indicator sets (`Prefixes`, `Indicator*`) and the flow table (`Flow*`).

## How it is built

What the program changes in place is a class here with the program's own fields: `Datagram` and `IpReassembler`,
`Stream` and `Reassembler`, `PcapWriter`, `FileSource`, `SectionSource`, `IocSet`, `DirectionStats`, `Flow` and
`FlowTable`. Its loops are loops. Each method is proved against a specification function over values (`Feed`, `Step`,
`Next`, `Advance`, `MatchIp`, `Counted`), and the theorems are about those functions folded over whole runs. A run is
a sequence of inputs, folded from the empty state; the state after it is compared with something defined on the
sequence alone: a first-writer map, a scan of a list, a sum, a decode of the whole text.

Wrapping, saturating, truncating and shifting arithmetic is written out where it matters: 32-bit sequence numbers, the
casts of the writer, `i64` seconds of pcapng, division towards zero in the calendar, the octet mask of a prefix.

## Where the code differs from its comments, or from what a reader may expect

The model follows the code.

- `crates/cbna-core/src/ip_reassembly.rs:240-243` says a completed datagram always drew on more than one fragment.
  This holds for IPv4; a lone IPv6 fragment with offset 0 and no more to come completes by itself, because
  `crates/cbna-core/src/net.rs:194` marks every packet with a fragment header. `IpPieces.TwoOrMore` says exactly when
  the claim holds.
- `crates/cbna-core/src/reassembly.rs:36-38` gives the worst case as 1024 streams. Only the data path checks the cap;
  SYNs open entries however full the table is. `TcpBounds.TrackedExactly` gives the number of streams after any run,
  and `TcpBounds.CapIsPassed` a run of 1025 SYNs.
- A SYN moves the base of a stream that already holds data without moving the data
  (`crates/cbna-core/src/reassembly.rs:264-267`), so what was written before counts as written behind the SYN. The
  theorems about runs say so; `TcpRuns.SynFitsExactly` says when the writes still fit where they were, and
  `TcpMovedBase.MixedHello` and `MovedBaseConflicts` what comes of it otherwise. A later SYN may put the base back
  (`TcpRuns.SecondSynRestores`).
- `crates/cbna-core/src/ioc.rs:86-87` says a prefix past the address width compares every bit. By 8 bits or more
  too many the code would index past the octets; by fewer it would do so when the octets agree, and return false when
  they differ. `parse_cidr` lets no such prefix through (`Indicators.ParseCidr`), and the model requires the width.
- `crates/cbna-capture/src/file.rs:276-277` says a new section may change byte order, but the section header's own length
  has been read in the old order by then. `SectionRoundTrip.OtherOrderRefused` says exactly when such a header is
  refused.
- A simple packet block keeps its padding as packet data (`crates/cbna-capture/src/file.rs:300-314`):
  `SectionRoundTrip.SimpleKeepsPadding`.

## Model

| member | source | states |
|---|---|---|
| Ranges.AddRange | crates/cbna-core/src/reassembly.rs:179-193 | the result is sorted, non-empty and separated by gaps, and covers exactly what was covered before and the new interval |
| Ranges.NormalFormUnique | crates/cbna-core/src/reassembly.rs:177-193 | a set of positions has only one such list, so the list is the normal form of its set |
| Ranges.RangeCount | crates/cbna-core/src/reassembly.rs:319-322 | the length that is compared with the cap is the number of maximal runs of filled positions |
| Ranges.ContiguousIsPrefix | crates/cbna-core/src/reassembly.rs:135-140 | `contiguous` is the largest n for which all of [0, n) is filled |
| HeadBuffer.Store | crates/cbna-core/src/ip_reassembly.rs:173-185 | the byte loop: filled bytes stay, the others take the payload; a conflict is a filled byte that differs |
| HeadBuffer.Write | crates/cbna-core/src/reassembly.rs:144-171 | buffer and list after a write stand for the old map with the missing positions below the cap added, first writer winning; bytes outside the ranges are 0; a conflict is reported exactly when a held byte differs |
| HeadBuffer.StateDetermined | crates/cbna-core/src/reassembly.rs:118-193 | buffer and list are determined by length and held bytes: nothing else is stored |
| HeadBuffer.FirstWriterMeaning | crates/cbna-core/src/reassembly.rs:142-144 | the first-writer map of a log has exactly the positions some write covers, each with the byte of the earliest such write |
| HeadBuffer.WindowWrite | crates/cbna-core/src/reassembly.rs:144-171 | writing through a window is appending to the log, and conflicts are disagreements with the log |
| HeadBuffer.WindowShift | crates/cbna-core/src/reassembly.rs:118-132 | shifting everything held is moving the window earlier |
| IpReassembly.Datagram.Write | crates/cbna-core/src/ip_reassembly.rs:162-189 | the write on the datagram's own fields, with `MAX_DATAGRAM_BYTES` as cap |
| IpReassembly.Datagram.Finish | crates/cbna-core/src/ip_reassembly.rs:145-150 | a finished datagram holds no bytes and no ranges |
| IpReassembly.Datagram.Accept | crates/cbna-core/src/ip_reassembly.rs:265-295 | one fragment at an open datagram has exactly the outcome of the specification `Feed`: state, emission, conflict |
| IpReassembly.IpReassembler.Track | crates/cbna-core/src/ip_reassembly.rs:254-263 | the entry used is the tracked one or a fresh one, refused and counted exactly when the table is full |
| IpReassembly.IpReassembler.Push | crates/cbna-core/src/ip_reassembly.rs:244-309 | the whole table after any fragment, and what was emitted, are those of the specification `Step` |
| IpRuns.Lifecycle | crates/cbna-core/src/ip_reassembly.rs:244-309 | for every sequence of fragments: while open, the bytes held, the length and the count are those of the sequence alone; a datagram closes exactly when the sequence first becomes crowded or whole; it emits exactly on the fragment that makes it whole; a conflict is a disagreement with the first-writer map |
| IpRuns.EmissionMeaning | crates/cbna-core/src/ip_reassembly.rs:269-295 | each emitted byte comes from the first accepted fragment that covered its position, and the length is the end of the first MF=0 fragment |
| IpRuns.EmittedAtMostOnce | crates/cbna-core/src/ip_reassembly.rs:143-150 | no datagram is emitted twice in any run |
| IpRuns.FinishedHoldsNothing | crates/cbna-core/src/ip_reassembly.rs:281-295 | done means empty, for ever; an open datagram stays within 65535 bytes and 16 ranges |
| Net.ParsersGuarantee | crates/cbna-core/src/net.rs:99-122 | whatever the words on the wire, a parsed fragment offset is a multiple of 8 up to 65528, and an IPv4 packet is marked exactly when it has an offset or more to come |
| IpPieces.Ipv4FragmentFields | crates/cbna-core/src/net.rs:99-122 | an IPv4 flags word made of its bits and an offset in eighths gives exactly the fragment those tell, key included, or none when nothing more is to come and the offset is 0 |
| IpPieces.Ipv6FragmentFields | crates/cbna-core/src/net.rs:189-198 | an IPv6 fragment header made of offset, reserved bits and the more bit always gives exactly that fragment, and no header gives none |
| IpPieces.Ipv4FragmentsArePieces | crates/cbna-core/src/net.rs:99-122 | a parsed IPv4 packet is a fragment exactly when the low 14 bits of its flags word are not all 0, and then something comes before or after it |
| IpPieces.ParsedStartsInside | crates/cbna-core/src/ip_reassembly.rs:248-252 | no parsed packet starts past the largest datagram, so that check turns none away |
| IpPieces.TwoOrMore | crates/cbna-core/src/ip_reassembly.rs:240-243 | the documented claim, exactly: a completed datagram drew on more than one fragment if and only if the first fragment taken was not a whole datagram by itself |
| IpPieces.Ipv4NeedsTwo | crates/cbna-core/src/ip_reassembly.rs:240-243 | so an emission from IPv4 fragments drew on at least two |
| IpPieces.LoneIpv6FragmentCompletes | crates/cbna-core/src/net.rs:189-198 | a received IPv6 packet whose fragment header says offset 0 and no more to come is handed over by an empty table at once, from one fragment |
| IpTables.Isolation | crates/cbna-core/src/ip_reassembly.rs:254-263 | interleaved datagrams do not interfere: each tracked key is in the state, and emitted the messages, that its own fragments alone produce |
| IpTables.OneMessagePerDatagram | crates/cbna-core/src/ip_reassembly.rs:265-295 | in any run of the table a datagram is emitted at most once |
| IpTables.Bounded | crates/cbna-core/src/ip_reassembly.rs:250-284 | after any run at most 1024 datagrams, 65535 bytes and 16 ranges each, 1024 * 65535 bytes in all, and no more rebuilt than finished |
| IpTables.CountersMeaning | crates/cbna-core/src/ip_reassembly.rs:257-295 | after any run the three counters are the number of emissions, of accepted fragments that disagree with an already held byte, and of fragments refused by a full table |
| IpRoundTrip.RoundTrip | crates/cbna-core/src/ip_reassembly.rs:244-309 | a payload of at most 65535 bytes cut into 2 to 32 pieces, arriving in any order with repetitions, is emitted once, byte for byte, on the arrival that fills the last hole |
| IpRoundTrip.RoundTripInTraffic | crates/cbna-core/src/ip_reassembly.rs:254-309 | the same among any other fragments, at a table that has room left or tracks the datagram |
| IpRoundTrip.FewRuns | crates/cbna-core/src/ip_reassembly.rs:281-284 | k pieces make at most half of k, rounded up, separate ranges |
| IpRoundTrip.EvensFirstIsLost | crates/cbna-core/src/ip_reassembly.rs:281-284 | with 33 pieces or more, the even ones first, nothing is ever emitted |
| IpRoundTrip.SurvivesEveryOrder | crates/cbna-core/src/ip_reassembly.rs:281-295 | a cut survives every order of arrival if and only if it has at most 32 pieces |
| Apps.CompleteIsStable | crates/cbna-core/src/packet.rs:455-495 | off the DNS ports, a payload that decodes to a complete message decodes the same whatever bytes follow it |
| Apps.DnsPrefixUnstable | crates/cbna-core/src/packet.rs:470-478 | on a DNS port the same claim fails: a concrete payload changes its decode when one byte follows |
| Apps.StableExactlyOffDns | crates/cbna-core/src/packet.rs:459-482 | completeness is stable for all payloads and continuations if and only if neither port is a DNS port |
| Apps.HandshakeIsNotHttp | crates/cbna-core/src/packet.rs:488-493 | a payload that begins as a TLS handshake record is never HTTP, so a record still incomplete is not mistaken for a request |
| Framing.StartsAreKnown | crates/cbna-core/src/proto/http.rs:84-119 | a head begins a status or request line, after any number of empty lines, exactly as the program tests it |
| Framing.HttpWholeExactly | crates/cbna-core/src/proto/http.rs:84-195 | a payload decodes to a complete HTTP message if and only if its first blank line ends within 16384 bytes and what stands in front of it starts with `HTTP/` or one of the nine methods and is well formed; the message is read from those bytes |
| Framing.HttpPartExactly | crates/cbna-core/src/proto/http.rs:84-195 | and to an incomplete one if and only if the first 16384 bytes have no blank line, start so and are well formed |
| Framing.HelloCuts | crates/cbna-core/src/proto/tls.rs:90-134 | every cut of a record that carries a client or server hello, whatever follows it: nothing before the fixed part is there, then the part that is there, complete exactly from the end of the record on |
| Framing.OnlyHellos | crates/cbna-core/src/proto/tls.rs:90-134 | whatever decodes as a hello is the front of such a record, with something behind it |
| Framing.DnsExactly | crates/cbna-core/src/packet.rs:459-482 | DNS is decoded exactly on ports 53, 5353 and 5355 of either end: the message behind its own two-byte length first, over TCP only, then the payload as it is |
| Framing.OthersInOrder | crates/cbna-core/src/packet.rs:484-494 | whatever is not DNS: nothing over UDP; over TCP a hello if there is one, else an HTTP message if there is one |
| Framing.WholeExactly | crates/cbna-core/src/reassembly.rs:202-219 | off the DNS ports a TCP payload is complete if and only if it begins with a whole hello record or a whole, well-formed HTTP head |
| Framing.HttpPrefixes | crates/cbna-core/src/reassembly.rs:202-219 | a prefix of a text with such a head is complete exactly from the end of its blank line on, and then it is that head |
| Framing.HelloPrefixes | crates/cbna-core/src/reassembly.rs:202-219 | the same for a hello, from the end of its record on |
| TcpReassembly.ShiftRanges | crates/cbna-core/src/reassembly.rs:123-131 | the shifted and clipped list is in normal form and covers exactly the shifted positions below the cap |
| TcpReassembly.Stream.Rebase | crates/cbna-core/src/reassembly.rs:118-132 | buffer and list after a rebase stand for the held bytes moved later and cut at 16384 |
| TcpReassembly.Stream.Write | crates/cbna-core/src/reassembly.rs:144-171 | the write on the stream's own fields |
| TcpReassembly.Stream.Finish | crates/cbna-core/src/reassembly.rs:103-108 | a finished stream holds no bytes and no ranges |
| TcpReassembly.Stream.Anchor | crates/cbna-core/src/reassembly.rs:264-267 | a SYN sets the base and moves nothing that is held |
| TcpReassembly.Stream.Accept | crates/cbna-core/src/reassembly.rs:291-349 | one data segment at an open stream has exactly the outcome of the specification `Feed` |
| TcpReassembly.Reassembler.Push | crates/cbna-core/src/reassembly.rs:240-350 | the whole table after any TCP packet, and what was recovered, are those of the specification `Step`; what that means on runs, in terms of the packets' flags, bytes and decoded payloads, is `TcpLifecycle.Lifecycle` and `EndingFinishes` |
| TcpRuns.RunRefines | crates/cbna-core/src/reassembly.rs:240-350 | sequence-space refinement: on every run an open stream holds the first-writer map of all accepted segments over unwrapped positions, seen through the window at its base, through every rebase, clamp and wrap; a SYN that names another base takes what was written before along to it |
| TcpLifecycle.Lifecycle | crates/cbna-core/src/reassembly.rs:240-350 | the whole life of a stream, on every run of a direction: what comes out on each packet, and whether the stream is untracked, open or finished, are decided by the packets over unwrapped positions; it finishes on a FIN, an RST, a payload that is a whole message by itself, more than 16 separate runs, a whole message in the gap-free part of two or more writes, or 16384 gap-free bytes; a message comes out exactly in the fifth case |
| TcpLifecycle.HeardBytes | crates/cbna-core/src/reassembly.rs:331-338 | that gap-free part is the byte first written at each position from the stream's start up to the first gap |
| TcpLifecycle.EndingFinishes | crates/cbna-core/src/reassembly.rs:247-254 | in every run of the table a FIN, an RST or a packet that carries a whole message brings nothing out; a tracked direction is finished and silent from then on, an untracked one stays untracked |
| TcpRuns.KeptBaseKeepsPositions | crates/cbna-core/src/reassembly.rs:264-267 | as long as SYNs keep the base of a stream that holds data, every write of that map stands at its segment's own position |
| TcpRuns.HonestIsKept | crates/cbna-core/src/reassembly.rs:264-267 | and for an open stream that is the case if and only if no SYN of the run changed the base of a stream that held bytes |
| TcpRuns.TrueSpanIsPlaceable | crates/cbna-core/src/reassembly.rs:295-312 | true positions less than a turn of the sequence space apart are what the 32-bit arithmetic sees |
| TcpRuns.SomePlacingExists | crates/cbna-core/src/reassembly.rs:295-312 | every run has positions that `RunRefines` applies to |
| TcpRuns.SynMustKeepBase | crates/cbna-core/src/reassembly.rs:264-267 | right after a SYN the writes fit where they were if and only if there are none or the SYN names the same base |
| TcpRuns.SynFitsExactly | crates/cbna-core/src/reassembly.rs:264-267 | the same on runs: after a SYN on an open stream the writes of the run fit where they were if and only if the stream held nothing or the SYN named its base |
| TcpRuns.SecondSynRestores | crates/cbna-core/src/reassembly.rs:264-267 | a second SYN that names the old base makes everything fit again |
| TcpMovedBase.MovedBaseMixes | crates/cbna-core/src/reassembly.rs:264-267 | data, a SYN that names any other start, and data behind it bring out the decode of both pieces together, however far apart they lie |
| TcpMovedBase.MixedHello | crates/cbna-core/src/reassembly.rs:264-267 | off the DNS ports a concrete run brings out a TLS hello whose halves lie a hundred positions apart |
| TcpMovedBase.MovedBaseConflicts | crates/cbna-core/src/reassembly.rs:264-267 | a concrete run counts a conflict between two bytes a hundred positions apart |
| TcpRuns.AlwaysGrounded | crates/cbna-core/src/reassembly.rs:295-317 | in every run some accepted write lies inside the window, as the previous row needs |
| TcpOrder.ConflictMeaning | crates/cbna-core/src/reassembly.rs:314-316 | on every run, a data segment is counted as a conflict exactly when it is accepted and differs from the byte the map of `RunRefines` has at its position; a SYN that names another base has moved the writes before it in that map |
| TcpOrder.OrderDoesNotMatter | crates/cbna-core/src/reassembly.rs:118-193 | two arrival orders of the same consistent data segments inside one 16384-byte span, neither finishing the stream, leave the same base and the same bytes, and count no conflict |
| TcpOrder.EqualFields | crates/cbna-core/src/reassembly.rs:118-193 | and so the same `base`, `buf` and `filled` |
| TcpSplit.SplitInvariance | crates/cbna-core/src/reassembly.rs:240-350 | a SYN and slices of one text, none complete alone, in any order and on any ports: the stream closes exactly when what arrived first is crowded, holds a complete message without a gap, or fills the buffer; exactly in the second case that message comes out, on that slice |
| TcpSplit.NothingLost | crates/cbna-core/src/reassembly.rs:240-350 | off the DNS ports and with no crowding before the stream is over, the whole text's message comes out of the run exactly on the slice that first makes the gap-free part complete, and the stream closes exactly when it is over |
| TcpRecovery.SplitHttpRecovered | crates/cbna-core/src/reassembly.rs:5-12 | a request or response head split over segments in any way comes out whole, on the slice with which everything up to its blank line is there and on no other, unless the arrived bytes fell into too many runs |
| TcpRecovery.SplitHelloRecovered | crates/cbna-core/src/reassembly.rs:5-12 | the same for a TLS hello, on the slice with which its record is there |
| TcpSplit.RecoveredAtMostOnce | crates/cbna-core/src/reassembly.rs:337-344 | at most one slice brings a message out, and off the DNS ports it is the decode of the whole text |
| TcpDnsSplit.DnsSplitShows | crates/cbna-core/src/packet.rs:470-478 | on a DNS port a concrete transmission, in order and without a gap, brings out a message that is not the decode of the whole text |
| TcpDnsSplit.SplitHiddenExactlyOffDns | crates/cbna-core/src/packet.rs:455-495 | every transmission, however split, brings out only the decode of the whole text if and only if neither port is a DNS port |
| TcpTables.Isolation | crates/cbna-core/src/reassembly.rs:275-289 | in any run a direction is in exactly the state, and brought out exactly the messages, that its own packets alone produce without those a full table refused; nothing came out on those |
| TcpTables.OneDirection | crates/cbna-core/src/reassembly.rs:244-244 | packets share a stream if and only if they go from one endpoint to the same other endpoint |
| TcpTables.IsolationUnrefused | crates/cbna-core/src/reassembly.rs:275-289 | a direction never refused is what all its own packets produce |
| TcpTables.SynFirstNeverDropped | crates/cbna-core/src/reassembly.rs:256-269 | a direction that begins with a SYN is never refused, since the SYN path has no cap |
| TcpTables.SplitInTraffic | crates/cbna-core/src/reassembly.rs:240-350 | split invariance among any other traffic |
| TcpBounds.Bounded | crates/cbna-core/src/reassembly.rs:256-322 | after any run: 16384 bytes and 16 ranges a stream, so many bytes in all, and no more recovered than finished |
| TcpBounds.TrackedExactly | crates/cbna-core/src/reassembly.rs:256-289 | the number of streams: at most 1024 when no SYN opened an entry at a full table, else exactly 1024 plus the number of SYNs that did |
| TcpBounds.CapHoldsExactly | crates/cbna-core/src/reassembly.rs:28-30 | the documented cap holds after a run if and only if no SYN of it opened an entry at a full table |
| TcpBounds.CapIsPassed | crates/cbna-core/src/reassembly.rs:260-263 | 1025 SYNs from distinct ports pass the cap, and 65536 track 65536 streams |
| TcpBounds.CountersMeaning | crates/cbna-core/src/reassembly.rs:57-69 | after any run the counters are the number of messages that came out, of data packets refused by a full table, and of packets that conflict in the run of their own direction |
| TcpBounds.ConflictInTraffic | crates/cbna-core/src/reassembly.rs:314-316 | the same for a data packet of any run of the table, over the packets of its direction that were not refused |
| TcpTables.EmittedDone | crates/cbna-core/src/reassembly.rs:340-344 | wherever a message came out in a run, its direction is tracked and finished from then on |
| TcpTables.OneMessagePerDirection | crates/cbna-core/src/reassembly.rs:249-293 | in any run of the table, full or not, a direction brings out at most one message |
| Dns.ReadName | crates/cbna-core/src/proto/dns.rs:209-280 | the loop computes the recursive meaning of names, and terminates on every message by jumps left and distance to the end |
| Dns.NameMeaning | crates/cbna-core/src/proto/dns.rs:209-280 | a name is read as some labels if and only if the bytes spell them with at most 127 labels and 16 backward pointers, a pointer being the bytes 192 + t / 256 and t % 256 for a target t in front of it |
| Dns.NameBounds | crates/cbna-core/src/proto/dns.rs:215-267 | on success start < next <= length, at most 127 labels, each of 1 to 63 bytes |
| Dns.LabelsInFront | crates/cbna-core/src/proto/dns.rs:253-267 | reading over encoded labels is reading what follows, with those labels in front |
| Dns.CompressedName | crates/cbna-core/src/proto/dns.rs:225-242 | labels, any number of them, followed by the two bytes of a pointer to any earlier t below 16384 read as those labels and the name at t; the position returned is just past the pointer |
| Dns.NameRoundTrip | crates/cbna/examples/make-sample.rs:553-561 | an encoded name, anywhere in a message, is read back if and only if it has at most 127 labels |
| DnsMessages.ReadRecord | crates/cbna-core/src/proto/dns.rs:151-171 | the record at an offset, or the error, with every slice in bounds |
| DnsMessages.ReadQuestions | crates/cbna-core/src/proto/dns.rs:109-122 | the question loop computes the recursive list of questions, or the first error |
| DnsMessages.ReadAnswers | crates/cbna-core/src/proto/dns.rs:124-135 | the answer loop keeps exactly the records before the first that does not parse |
| DnsMessages.ParseStrict | crates/cbna-core/src/proto/dns.rs:90-149 | the whole parse, error cases included |
| DnsMessages.WalkAdvances | crates/cbna-core/src/proto/dns.rs:111-129 | every question moves the walk by at least 5 bytes and every record by at least 11, inside the message |
| DnsMessages.MessageRoundTrip | crates/cbna-core/src/proto/dns.rs:90-171 | a written message reads back as what it means, whatever bytes follow; the name of each answer is labels of its own and then its end or a pointer to anything spelled in front of it, compressed or not |
| DnsMessages.NamesMayBePointedTo | crates/cbna-core/src/proto/dns.rs:225-242 | every name of a written answer, and every tail of one, is such a thing from then on, with one pointer more |
| DnsMessages.HeaderRefused | crates/cbna-core/src/proto/dns.rs:99-108 | a header of fewer than 12 bytes, a reserved opcode, more than 64 questions or more than 512 answers announced is refused with its error |
| DnsCuts.CutQuestions | crates/cbna-core/src/proto/dns.rs:90-122 | cut inside its header or its questions, a message is not read |
| DnsCuts.CutMessage | crates/cbna-core/src/proto/dns.rs:124-135 | cut anywhere after its questions, a message keeps exactly the answers that are still whole |
| Clock.At | crates/cbna-core/src/time.rs:18-23 | the carried timestamp is normalised and is the same instant |
| Clock.MicrosExactness | crates/cbna-core/src/time.rs:25-27 | microseconds are exact if and only if below 4294968, where the product saturates |
| Clock.CivilIsValidAndInverted | crates/cbna-core/src/time.rs:79-90 | every day number, negatives included, gives a valid Gregorian date whose day number is the one it came from |
| Clock.DateIsRecovered | crates/cbna-core/src/time.rs:79-90 | every valid date is the date of its day number |
| Clock.CalendarIsGregorian | crates/cbna-core/src/time.rs:79-90 | day 0 is 1 January 1970 and day z+1 is the next calendar date after day z |
| Clock.UnixRecomposes | crates/cbna-core/src/time.rs:65-77 | hour, minute and second are in range, and the six fields recompose to the seconds they came from |
| Clock.UnixIsInjective | crates/cbna-core/src/time.rs:65-77 | different seconds give different fields |
| Capture.LinkRoundTrip | crates/cbna-capture/src/writer.rs:26-34 | a link type survives writing and reading if and only if the reader can produce it |
| Capture.LinkNumbers | crates/cbna-core/src/packet.rs:29-39 | what each link number means, and that every other number is kept |
| Capture.StoredIsRead | crates/cbna-capture/src/file.rs:161-168 | swapping reads back a word stored in the other byte order |
| Capture.PcapWriter.constructor | crates/cbna-capture/src/writer.rs:22-49 | the output is the file header of a little-endian nanosecond file |
| Capture.PcapWriter.Write | crates/cbna-capture/src/writer.rs:51-61 | the output grows by exactly the packet's record |
| Capture.WriteAll | crates/cbna-capture/src/writer.rs:22-61 | creating a file and writing packets gives the file of those records in order |
| CaptureRoundTrip.HeaderBytes | crates/cbna-capture/src/writer.rs:36-42 | the bytes every written file begins with |
| Capture.FileSource.ReadPcapHeader | crates/cbna-capture/src/file.rs:138-148 | byte order, resolution and link type after the header, or the end of input |
| Capture.FileSource.NextPacket | crates/cbna-capture/src/file.rs:150-207 | reader state and answer after each call are those of the specification `Next`; what the packets of a file are, times included, is `CaptureRoundTrip.PrefixLaw` |
| Capture.OpenSource | crates/cbna-capture/src/file.rs:89-126 | a classic file opens as the specification `Open` says, and fails with its error |
| CaptureRoundTrip.PrefixLaw | crates/cbna-capture/src/file.rs:150-207 | a file of either byte order and resolution, cut anywhere after its header, reads without an error as exactly the records still whole: numbered from 1, dated to the nanosecond by seconds and fraction, with the larger of the two lengths as wire length |
| CaptureRoundTrip.TimeIsInstant | crates/cbna-capture/src/file.rs:195-199 | the timestamp of a record is its seconds times 10^9 plus its fraction in nanoseconds, which for microseconds is exact if and only if they are below 4294968 and else 2^32 - 1 |
| CaptureRoundTrip.ImplausibleStops | crates/cbna-capture/src/file.rs:173-181 | a record that claims more than 262144 bytes is reported by its number and length behind all the records in front of it, and ends the file |
| CaptureRoundTrip.OpensExactly | crates/cbna-capture/src/file.rs:93-124 | a classic file opens if and only if it has 24 bytes and begins with one of the four magics; which other bytes are a pcapng file or unknown |
| CaptureRoundTrip.HeaderCut | crates/cbna-capture/src/file.rs:89-96 | cut inside its header, a file does not open |
| CaptureRoundTrip.RoundTrip | crates/cbna-capture/src/writer.rs:51-61 | reading what was written gives the same packets, numbered from 1, if and only if each has 32-bit seconds, normalised nanoseconds, at most 262144 bytes and a wire length no less; the link type if and only if it is canonical |
| CaptureRoundTrip.ByteOrderInvisible | crates/cbna-capture/src/file.rs:106-111 | files of either byte order holding the same records read the same |
| Pcapng.ResolutionMeaning | crates/cbna-capture/src/file.rs:348-356 | a resolution is the power its byte names, of 2 or 10, cut at 2^63 or 10^18, so it is the named power if and only if that is no more; it is never 0 |
| Pcapng.ResolutionInRange | crates/cbna-capture/src/file.rs:322-364 | whatever the bytes, a described interface has a resolution in [1, 2^63] |
| Pcapng.OptionsMeaning | crates/cbna-capture/src/file.rs:334-359 | the option walk finds what the options declare: the last well-formed `if_tsresol`, else a million |
| Pcapng.TicksExact | crates/cbna-capture/src/file.rs:395-404 | nanoseconds are below a billion, and the timestamp is floor(ticks * 10^9 / resolution) if and only if the resolution is at least 2 or ticks < 2^63 |
| Pcapng.TicksMonotone | crates/cbna-capture/src/file.rs:395-404 | timestamps of one interface do not run backwards as ticks grow, for a resolution of at least 2 or ticks below 2^63 |
| Pcapng.MonotoneExactly | crates/cbna-capture/src/file.rs:395-404 | they never do, for all ticks, if and only if the resolution is at least 2 |
| Sections.SectionSource.DescribeInterface | crates/cbna-capture/src/file.rs:322-364 | the option loop of `parse_idb` terminates and computes the specification, short bodies included |
| Sections.SectionSource.DecodePacket | crates/cbna-capture/src/file.rs:366-412 | `parse_epb`: index, packet and each error |
| Sections.SectionSource.PullBlock | crates/cbna-capture/src/file.rs:238-272 | reading one block: the quiet end, an invalid length, a torn block, or the block |
| Sections.SectionSource.TakeBlock | crates/cbna-capture/src/file.rs:274-318 | acting on one block: new section, interface, packet, simple packet, or skipped |
| Sections.SectionSource.NextPacket | crates/cbna-capture/src/file.rs:238-320 | the block loop terminates and computes the specification `Advance` |
| SectionRoundTrip.SectionOpens | crates/cbna-capture/src/file.rs:211-236 | a section header of either byte order opens a section of that order |
| SectionRoundTrip.SectionRefused | crates/cbna-capture/src/file.rs:215-231 | a section is refused for its byte-order mark if and only if the mark is neither of the two, and for its length if and only if that is under 12 or over 16 MiB |
| SectionRoundTrip.EntryTaken | crates/cbna-capture/src/file.rs:274-318 | a block made of some content is taken as what the content means |
| SectionRoundTrip.RestartTaken | crates/cbna-capture/src/file.rs:275-283 | a section header in the middle of a file, in the byte order so far, forgets the interfaces and keeps the packet count |
| SectionRoundTrip.OtherOrderRefused | crates/cbna-capture/src/file.rs:247-255 | a section header of the other byte order in the middle of a file is refused if and only if its length, with its bytes reversed, is not a length a block may have; a plain header of 28 bytes always is |
| SectionRoundTrip.SimpleKeepsPadding | crates/cbna-capture/src/file.rs:300-314 | a simple packet written with its padding reads back as it was if and only if its length is a multiple of 4 |
| SectionRoundTrip.OneByteComesBackAsFour | crates/cbna-capture/src/file.rs:300-314 | a packet of one byte reads back as four, with lengths to match |
| SectionRoundTrip.SectionHeaderCut | crates/cbna-capture/src/file.rs:211-236 | cut inside its header, a section does not open |
| SectionRoundTrip.SectionLaw | crates/cbna-capture/src/file.rs:238-320 | a section of either byte order, cut anywhere after its header, reads as the packets of the blocks still whole, numbered from 1; each is dated by the interface it names among those described in front of it since the last section header, at what that declared or a million ticks a second when there is none; an error is reported only when the cut falls in a closing length |
| Prefixes.PrefixMeaning | crates/cbna-core/src/ioc.rs:88-100 | octets share a prefix of p bits if and only if the numbers they spell agree after division by 2 to the bits below p |
| IndicatorMatching.ContainsMeaning | crates/cbna-core/src/ioc.rs:73-84 | a range contains an address if and only if they are of one family and one network |
| IndicatorKinds.CanonicalIsNormal | crates/cbna-core/src/ioc.rs:306-307 | the normal form is the text without the dots at its end and with every capital replaced by its small letter |
| IndicatorKinds.OneNormalForm | crates/cbna-core/src/ioc.rs:240-240 | two names have one normal form if and only if, without the dots at their ends, they differ in case at most |
| IndicatorKinds.InsertMeaning | crates/cbna-core/src/ioc.rs:192-217 | what inserting a token does, told by its characters: with room left a range, an address, 32 hexadecimal digits, or anything else whose normal form has a dot and only letters, digits, hyphens and dots is added as what it is; every other token is unrecognised, and then nothing changes; nor does it at four million indicators |
| Indicators.ParseCidr | crates/cbna-core/src/ioc.rs:322-335 | a parsed range has a prefix within its address, which is what `prefix_eq` needs |
| Indicators.IocSet.InsertTagged | crates/cbna-core/src/ioc.rs:192-217 | the whole set and the result after any insertion are those of the specification `Insert`, whose meaning is `IndicatorKinds.InsertMeaning` |
| Indicators.IocSet.Extend | crates/cbna-core/src/ioc.rs:171-177 | the merged set: incoming provenance wins, incoming ranges go last |
| Indicators.IocSet.FindIp | crates/cbna-core/src/ioc.rs:222-230 | the search computes the specification `MatchIp` |
| Indicators.IocSet.FindDomain | crates/cbna-core/src/ioc.rs:236-256 | the suffix walk terminates and computes the specification `MatchDomain` |
| IndicatorMatching.MatchIpMeaning | crates/cbna-core/src/ioc.rs:220-230 | an address matches if and only if it is listed or lies in a listed range; the exact entry wins, else the first range |
| IndicatorMatching.MatchDomainMeaning | crates/cbna-core/src/ioc.rs:232-256 | a name matches if and only if its normal form is a listed domain or ends in a dot and one; the longest is reported |
| IndicatorMatching.SpellingsMatchAlike | crates/cbna-core/src/ioc.rs:236-241 | names that differ in case or in dots at their ends are matched alike |
| IndicatorMatching.LongestIsUnique | crates/cbna-core/src/ioc.rs:232-235 | that longest domain is unique |
| IndicatorMatching.CanonicalIdempotent | crates/cbna-core/src/ioc.rs:306-318 | normalising a name again changes nothing |
| IndicatorMatching.LoadBounded | crates/cbna-core/src/ioc.rs:192-195 | a set loaded from any list holds at most 4000000 indicators, and its ranges stay within their addresses |
| IndicatorMatching.LoadAll | crates/cbna-core/src/ioc.rs:148-217 | setting the source and inserting line by line gives the set the next rows are about |
| IndicatorMatching.LoadedIps | crates/cbna-core/src/ioc.rs:192-230 | a set loaded from any list matches an address if and only if a scan of the lines that found room finds one that lists it |
| IndicatorMatching.LoadedDomains | crates/cbna-core/src/ioc.rs:192-217 | a domain is held if and only if a line that found room lists it, with the provenance of the last such line |
| IndicatorMatching.LoadedNames | crates/cbna-core/src/ioc.rs:192-256 | a set loaded from any list matches a name if and only if a line that found room lists a domain that the name's normal form is or ends in behind a dot |
| IndicatorMatching.LoadedJa3 | crates/cbna-core/src/ioc.rs:258-266 | a fingerprint matches if and only if a line that found room lists it in either case; the match names the last such line's source |
| IndicatorMatching.ListedHashShape | crates/cbna-core/src/ioc.rs:296-300 | a line can only list 32 hexadecimal digits, held in small letters |
| IndicatorMatching.InsertedDomainIsFound | crates/cbna-core/src/ioc.rs:212-215 | a token inserted as a domain is found however a name spells it, under its own source and tag, and every name below it is matched |
| IndicatorMatching.InsertedJa3IsFound | crates/cbna-core/src/ioc.rs:208-211 | a fingerprint just inserted is found in either case, under its own source and tag |
| IndicatorMatching.MergedNames | crates/cbna-core/src/ioc.rs:167-177 | a merged set reports for a name the more specific of what its parts report, the incoming one on a tie |
| IndicatorMatching.MergedIps | crates/cbna-core/src/ioc.rs:167-177 | a merged set reports for an address the incoming exact entry, else the old match, else the incoming range |
| FlowKeys.BothDirectionsShareKey | crates/cbna-core/src/flow.rs:38-68 | both directions of distinct endpoints share one key with opposite directions |
| FlowKeys.CanonicalIsInjective | crates/cbna-core/src/flow.rs:38-68 | key and direction determine source, destination and protocol |
| FlowKeys.KeyIsOrdered | crates/cbna-core/src/flow.rs:38-68 | a key holds its endpoints in ascending order, IPv4 before IPv6, then by address and port, and the direction says which of them sent |
| FlowRuns.RouteMeaning | crates/cbna-core/src/flow.rs:70-76 | every packet with a network layer has a key and direction, which give back its sender, receiver and protocol |
| FlowKeys.SelfTrafficIsAToB | crates/cbna-core/src/flow.rs:45-56 | a packet from an endpoint to itself always has the first direction |
| Flows.DirectionStats.Observe | crates/cbna-core/src/flow.rs:116-129 | all six counters after one packet |
| Flows.Flow.Observe | crates/cbna-core/src/flow.rs:395-412 | first and last seen, handshake, initiator and counters after one packet are those of `Observed`; what settles the initiator, by its flag bits, is `FlowRuns.FlowOpening` |
| Flows.FlowTable.Observe | crates/cbna-core/src/flow.rs:388-414 | the whole table after any packet, and the key returned |
| FlowRuns.FlowExists | crates/cbna-core/src/flow.rs:388-393 | a key has a flow if and only if the trace has a packet on it |
| FlowRuns.FlowCounts | crates/cbna-core/src/flow.rs:116-129 | packets, bytes and payload bytes of a direction are those of its packets in the trace; the samples are the times of the first 8192, and truncation is flagged exactly beyond |
| FlowRuns.FlowFlags | crates/cbna-core/src/flow.rs:121-123 | a flag was seen in a direction if and only if some packet of that direction carried it |
| FlowRuns.FlowSpan | crates/cbna-core/src/flow.rs:395-400 | first and last seen are the least and greatest times on the key, in whatever order packets came |
| FlowRuns.BeforeIsEarlier | crates/cbna-core/src/time.rs:9-13 | earlier means an earlier instant |
| FlowRuns.FlowOpening | crates/cbna-core/src/flow.rs:401-410 | the initiator is the sender of the earliest TCP packet with the SYN bit set and the ACK bit clear, or of the first packet when there is none |
| FlowRuns.ClientSentTheSyn | crates/cbna-core/src/flow.rs:222-257 | when a TCP packet with SYN set and ACK clear was captured on the key, client and server are source and destination of the first one, whatever the ports |
| FlowRuns.OthersNeverSettle | crates/cbna-core/src/flow.rs:401-410 | once a flow exists no number of SYN-ACKs, other TCP packets or UDP packets changes who opened it |
| FlowRuns.EqualPortsFirstSender | crates/cbna-core/src/flow.rs:222-241 | between equal ports without such a packet, the client is the sender of the first packet |
| FlowRuns.PortsDecide | crates/cbna-core/src/flow.rs:226-241 | without a handshake the end with the one known port is the server; when both or neither are known, the end with the lower port |
| FlowRuns.Conserved | crates/cbna-core/src/flow.rs:388-414 | packets and bytes summed over flows are those of all IP packets of the trace |
| FlowRuns.FoldMirrored | crates/cbna-core/src/flow.rs:38-68 | when no packet goes from an endpoint to itself, turning every packet of a trace round gives the same flows seen from the other end |
| FlowRuns.MirroredExactly | crates/cbna-core/src/flow.rs:38-68 | and only then |

## Left out

- TcpRuns.KeptBaseKeepsPositions: asks that SYNs keep the base of a stream that holds data, because the code otherwise moves the bytes; so `TcpOrder.ConflictMeaning` and `TcpBounds.ConflictInTraffic` count disagreements between sent bytes only under that condition, as `TcpMovedBase.MovedBaseConflicts` shows.
- TcpSplit.NothingLost: asks for ports other than the DNS ports, which `TcpDnsSplit.SplitHiddenExactlyOffDns` proves to be needed, and for no crowding before the stream is over, since crowding closes the stream without a message, as `TcpSplit.SplitInvariance` says.
- Apps.CompleteIsStable: what HTTP asks of a header block beyond its start (UTF-8, a status between 100 and 599, a known version) is one parameter, any predicate of the header block, so the result holds for every such check.
- IpRoundTrip.RoundTripInTraffic: is about datagrams the table tracks, since a full table refuses new ones by design.
- The counters `segments` and `fragments` are unbounded here and 32 bits wide in the program; packet indices and byte totals are unbounded as well.
- Both reassemblers have their own copy of the same buffer code; it is modelled once, with the cap as a parameter.
- Hash maps are maps: their iteration order, allocation and capacity are not modelled.
- `push` of each reassembler, `observe` and `next_pcapng` are split into several methods where the program has one body.
- What follows an IP emission: `decode_datagram` and the synthetic packet. The emission here is the rebuilt bytes.
- Header decoding of Ethernet, ARP, IP, TCP, UDP and ICMP: keys, offsets, sequence numbers, flags and payloads are inputs.
- HTTP header fields, TLS extensions and JA3: messages are represented by the header block or record bytes they are read from.
- DNS text: names are sequences of labels, without joining by dots, lossy UTF-8, or rendering of record data.
- Text parsing of addresses and numbers in indicator tokens, and rendering of addresses: a token carries what the library's parsers make of it.
- Input and output errors other than the end of input, and the paths and formats kept for messages.
- Timestamps kept as samples are values here; the program stores them as floating point, and durations, ratios, beacon scores and entropy are not modelled.
- `record_app`, `service_name` (a parameter where the client is guessed), `scope` and `service` of a flow: tables and capped sets with no harder property.
- Live capture, fetching of feeds, caches, the web server, the dashboard, the command line and reports.
