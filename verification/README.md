# picoTCP cores: a Dafny model

This project models the codecs, the reassembly code and the layered state machines of picoTCP and
proves what they are for. The code it follows changes buffers, device fields and trees in place, so
most operations appear twice: as a method over arrays or over the fields of a class, with loops and
invariants, and as the function that the method is proved to compute. The main results are lemmas
about those functions; they hold for every input, every order of arrival or every run.

A little-endian host is assumed where the order of octets matters. A `pico_tree` is a sequence that is
sorted strictly by the tree's comparison, or a set or map where the order plays no part; insertion refuses
a key that is there.

## The parts

- **PPP** (`Fcs`, `PppFraming`, `PppTables`, `Ppp`, `PppLayers`, `PppRuns`, `PppDriver`). The table-free
  FCS-16 equals eight shifts of the reflected register and also the nibble multiplier of the radio test
  device; two frames of one length that differ only within 16 consecutive bits, at any bit position, do
  not both pass the check. Frames of 2 to 2047 octets survive octet stuffing and the resumable deframer
  however the byte stream is cut, and exactly the streams that fill the buffer of the deframer, behind which
  the next poll then writes, are known. The modem, LCP, authentication and IPCP machines call each other after
  their state is written; a rank on events shows that every cascade ends. On every run the modem is
  connected exactly when LCP is up, authentication is up only over an open LCP, and the restart timer runs
  exactly in the states that wait. IPCP stays below authentication on a run if and only if the
  authentication timer never expires in the starting state above an active IPCP; such a run exists and is given.
  A silent peer gets exactly the retries that are left, within an exact number of ticks.
- **6LoWPAN** (`Iphc`, `IphcHeader`, `IphcDriver`, `UdpNhc`, `ExtNhc`, `SlpPacket`, `SlpFragments`, `SlpDelivery`,
  `SlpDriver`, `Ieee802154`). Exactly which IPv6 headers, which UDP headers and which single extension headers
  come back from compression without contexts, and which packets without extension headers. A packet that is
  compressed, split and delivered in any order, between acceptable fragments of other datagrams, comes out
  once, at its last fragment, with nothing changed but the UDP length; what repeated fragments lead to is exact,
  too. Acceptable are fragments that lie within the datagram they name, where that has at least 40 octets, and
  of the first ones those that hold what decompression reads, with no more than six headers behind the IPv6
  one. The 802.15.4 header is read back, and a link-local destination is elided exactly when its interface
  identifier can be found again from its link address.
- **IPv4 fragments** (`Ipv4Fragments`). Fragments in any order and with repetitions give exactly one
  delivery, on the arrival that completes the set; what the single reassembly slot does to other
  datagrams is stated as it is, including that the first fragment of another datagram is lost and that after
  an expiry nothing of the same identification is delivered.
- **DNS names** (`DnsCompression`, `DnsPacket`, `DnsNotation`). Suffix compression with pointers that go
  strictly backward, over one name and over a whole packet, and exactly when it leaves the packet intact;
  in-place conversion between dots and labels, with the exact set of names that come back.
- **Timers** (`TimerHeap`). The block-allocated heap is a priority queue although its size counter drifts
  from its capacity; expired timers fire in order, whatever timers their callbacks start or cancel.
- **Multicast filters and routes** (`Multicast`, `Routing`). When a report tells the whole change of a
  filter; which route is found; that routes and default links never outlive their links.

`Wrappers` and `Permutations` are small helpers. `dafny verify dfyconfig.toml` checks everything.

Places where the code and its documentation differ are followed as the code has them: the source
address mode is cleared when the destination is carried in full (section 3.1.1 of RFC 6282 keeps the two
apart), which the condition for the header round trip shows; and the decompressor of two 0xF0Bx ports uses
the whole octet for the destination port (section 4.3.3 of RFC 6282 uses its low half), which the
condition for the UDP round trip shows; and of the extension headers of section 4.2 of RFC 6282 only some
destination options are read as they are written, which the condition for their round trip shows.

## Model

| member | source | states |
|---|---|---|
| Fcs.StepIsEightShifts | modules/pico_dev_ppp.c:439-445 | One octet of the table-free FCS equals eight shifts of the reflected 0x8408 register |
| Fcs.StepIsTwoNibbles | modules/pico_dev_radiotest.c:255-270 | The nibble-multiplying CRC step equals the FCS step, for every register and octet |
| Fcs.FoldConcat | modules/pico_dev_ppp.c:447-455 | Continuing over a buffer in two parts is continuing over the whole |
| Fcs.StepInjective | modules/pico_dev_ppp.c:439-445 | For a given octet the step loses nothing of the register |
| Fcs.FoldInjective | modules/pico_dev_ppp.c:447-455 | Neither does any buffer: different registers stay different |
| Fcs.PassesIffTrailer | modules/pico_dev_ppp.c:457-477 | A body passes the check with exactly one two-octet trailer, the one the sender computes |
| Fcs.BurstDetected | modules/pico_dev_ppp.c:439-477 | Two buffers of one length that differ only within 16 consecutive bits of the wire and both pass are equal |
| Fcs.TwoOctetsDetected | modules/pico_dev_ppp.c:439-477 | Different buffers that differ only in two adjacent octets do not both pass |
| Fcs.Continue | modules/pico_dev_ppp.c:447-455 | The loop folds the step over the octets of the buffer |
| Fcs.Verify | modules/pico_dev_ppp.c:468-477 | The receiver's check accepts exactly the buffers with the good residue |
| Fcs.CalculateCrc16 | modules/pico_dev_radiotest.c:255-270 | The radio test device's loop computes the same register as the PPP driver |
| PppFraming.SpecialMeans | modules/pico_dev_ppp.c:306-363 | The shifted comparison picks exactly the flag and the escape octet |
| PppFraming.CountSpecials | modules/pico_dev_ppp.c:306-363 | The first loop counts the octets inside the frame that must be escaped |
| PppFraming.StuffInto | modules/pico_dev_ppp.c:306-363 | The second loop writes the stuffed frame, first and last octet bare, into a buffer of just that size |
| PppFraming.SendEscaped | modules/pico_dev_ppp.c:306-363 | What goes to the line is the stuffed frame, also when nothing needs escaping |
| PppFraming.Deframer.Poll | modules/pico_dev_ppp.c:2024-2085 | One poll feeds the octets it reads to the deframer, resumes an escape cut in two, and spends one score per frame; it writes behind the buffer exactly when it is entered with 2048 octets held and something to read |
| PppFraming.FeedConcat | modules/pico_dev_ppp.c:2024-2085 | Feeding two pieces of a stream is feeding the stream |
| PppFraming.FramesRoundTrip | modules/pico_dev_ppp.c:306-363 | Any sequence of bodies of two octets or more, framed and stuffed one after the other, is handed over exactly, in order, by a deframer whose buffer has room |
| PppFraming.PolledRoundTrip | modules/pico_dev_ppp.c:2024-2085 | The same however the stream is cut across polls, and the 2048-octet buffer always has room |
| PppFraming.FullIff | modules/pico_dev_ppp.c:2024-2085 | Exactly the streams that fill the buffer, so that the next poll overruns it: those with 2048 stored octets and no flag between, of which one may be left from before |
| PppFraming.FitsIff | modules/pico_dev_ppp.c:2024-2085 | A frame leaves room in the buffer throughout exactly when its body has at most 2047 octets |
| PppFraming.CtlSend | modules/pico_dev_ppp.c:480-506 | A control packet goes out framed with address, control, protocol number and its FCS |
| PppFraming.CtlDelivered | modules/pico_dev_ppp.c:1403-1420 | However its stream is cut, a packet of up to 2041 octets is handed over, always finds room, and passes the check of the peer, which gets the protocol number and payload that were sent |
| PppTables.ModemFsm | modules/pico_dev_ppp.c:683-747 | The modem table; its handlers rank below the event, so cascades end |
| PppTables.LcpFsm | modules/pico_dev_ppp.c:1507-1694 | The LCP table; its handlers rank below the event |
| PppTables.AuthFsm | modules/pico_dev_ppp.c:1855-1906 | The authentication table; its handlers rank below the event |
| PppTables.IpcpFsm | modules/pico_dev_ppp.c:1958-2004 | The IPCP table; its handlers rank below the event |
| PppLayers.TimeoutStates | modules/pico_dev_ppp.c:1507-1694 | The states whose TO+ entry has a handler are the five of section 4.1 of RFC 1661 in which the restart timer runs |
| PppLayers.LcpKeeps | modules/pico_dev_ppp.c:1696-1727 | Any LCP event, with all it sets off in the other machines, keeps the layering and the restart timer |
| PppLayers.ModemKeeps | modules/pico_dev_ppp.c:748-765 | Any modem event keeps them |
| PppLayers.AuthKeeps | modules/pico_dev_ppp.c:1908-1924 | Any authentication event keeps them over an open LCP, and says when IPCP stays below |
| PppLayers.IpcpKeeps | modules/pico_dev_ppp.c:2006-2022 | Any IPCP event keeps them |
| PppRuns.TickKeeps | modules/pico_dev_ppp.c:2154-2175 | A tick, with every timeout that is due, keeps them |
| PppRuns.StepKeeps | modules/pico_dev_ppp.c:748-765 | Every input keeps them |
| PppRuns.RunKeeps | modules/pico_dev_ppp.c:1441-1477 | On every run: connected exactly when LCP is up, authentication only over an open LCP, the restart timer exactly in the states that wait, at most ten retries due |
| PppRuns.RunIpcpLayered | modules/pico_dev_ppp.c:1855-1906 | IPCP stays below authentication throughout a run if and only if the authentication timer never lapses in the starting state above an active IPCP |
| PppRuns.LapseReachable | modules/pico_dev_ppp.c:1855-1906 | A run on which it does lapse, from the created device |
| PppRuns.ToPosEffect | modules/pico_dev_ppp.c:2120-2132 | A restart timeout with retries left sends one request and waits on |
| PppRuns.ToNegEffect | modules/pico_dev_ppp.c:2120-2132 | One without retries takes LCP and the modem down |
| PppRuns.SilentPeer | modules/pico_dev_ppp.c:2110-2175 | From any state with the restart timer running and only ticks: exactly `timerCount` (at most ten) more requests, then down and disconnected after exactly the ticks its patience allows |
| PppDriver.PppDevice.LcpTimerStart | modules/pico_dev_ppp.c:365-389 | Starting a restart timer in place |
| PppDriver.PppDevice.RunHandler | modules/pico_dev_ppp.c:667-681 | A handler updates the device in place, entering other machines, to the state the model says |
| PppDriver.PppDevice.EvaluateModemState | modules/pico_dev_ppp.c:748-765 | The modem evaluator in place |
| PppDriver.PppDevice.EvaluateLcpState | modules/pico_dev_ppp.c:1696-1727 | The LCP evaluator in place: state first, timers stopped, then the handlers |
| PppDriver.PppDevice.EvaluateAuthState | modules/pico_dev_ppp.c:1908-1924 | The authentication evaluator in place |
| PppDriver.PppDevice.EvaluateIpcpState | modules/pico_dev_ppp.c:2006-2022 | The IPCP evaluator in place |
| PppDriver.PppDevice.CheckToLcp | modules/pico_dev_ppp.c:2120-2132 | The LCP timeout in place, the counter decremented after the event |
| PppDriver.PppDevice.TickOnce | modules/pico_dev_ppp.c:2154-2175 | The tick in place |
| Iphc.SecondSays | modules/pico_6lowpan.c:533-571 | For every pair of ways to carry the two addresses, what the second octet tells the decompressor |
| Iphc.LocalSurvives | modules/pico_6lowpan.c:484-502 | A link-local address comes back exactly when its prefix is fe80::/64 and, if 16 bits of it are carried, its identifier starts with two zero octets |
| Iphc.GroupSurvives | modules/pico_6lowpan.c:505-528 | A multicast address comes back exactly when the octets its form leaves out are zero |
| Iphc.PairSurvivesIff | modules/pico_6lowpan.c:574-697 | Exactly which pairs of addresses come back, given how each one is carried |
| IphcHeader.VtfSurvives | modules/pico_6lowpan.c:270-345 | Version, traffic class and flow label come back exactly when the version is 6 |
| IphcHeader.RoundTripsIff | modules/pico_6lowpan.c:704-771 | Compressing a header and decompressing it, whatever follows, takes exactly the octets made and gives it back, but for the length and a compressed next header, if and only if the stated condition on the header and the link addresses holds |
| IphcHeader.ElidedSourceExample | modules/pico_6lowpan.c:533-571 | From fe80::1, elided, to 2001:db8::1: a header that does not come back |
| IphcDriver.BufMove | modules/pico_6lowpan.c:125-144 | The copy is right for overlapping buffers in both directions |
| IphcDriver.CompressorVtf | modules/pico_6lowpan.c:270-314 | Class and flow label compressed on the buffer, and the version of the frame cleared |
| IphcDriver.AddrCompMcast | modules/pico_6lowpan.c:505-528 | A multicast address compressed on the buffer |
| IphcDriver.AddrCompMode | modules/pico_6lowpan.c:484-502 | The mode of a link-local address, and how many of its octets are carried |
| IphcDriver.CompressorAddress | modules/pico_6lowpan.c:533-571 | An address compressed on the buffer, and when that fails |
| IphcDriver.CompressField | modules/pico_6lowpan.c:694-701 | One entry of the field table |
| IphcDriver.CompressorIphc | modules/pico_6lowpan.c:704-742 | The loop over the table, and the octets moved up to the two fixed ones, give the compressed header |
| IphcDriver.DecompressorVtf | modules/pico_6lowpan.c:316-345 | Class and flow label rebuilt on the buffer |
| IphcDriver.AddrDecompIid | modules/pico_6lowpan.c:597-620 | An address rebuilt over the link-local prefix |
| IphcDriver.AddrDecompMcast | modules/pico_6lowpan.c:650-676 | A multicast address rebuilt |
| IphcDriver.DecompressorIphc | modules/pico_6lowpan.c:744-771 | The loop over the table rebuilds the header and counts what it took |
| UdpNhc.UdpRoundTripsIff | modules/pico_6lowpan.c:773-862 | A UDP header comes back, with the length that fits its payload, except precisely when both ports are 0xF0Bx and bit 2 of the source port is set |
| UdpNhc.SmearedExample | modules/pico_6lowpan.c:821-862 | The ports 0xF0B4 and 0xF0B0: the destination port comes back as 0xF0F0 |
| UdpNhc.CompressorNhcUdp | modules/pico_6lowpan.c:773-819 | The compressor on its buffer |
| UdpNhc.DecompressorNhcUdp | modules/pico_6lowpan.c:821-862 | The decompressor on its buffer, with the length from the frame |
| ExtNhc.ExtRoundTripsIff | modules/pico_6lowpan.c:865-1043 | Exactly which extension headers come back: destination options of at most 256 octets whose next header is compressed and follows, and fragment headers all of whose six last octets are the one that follows; a routing header or hop-by-hop options never do |
| ExtNhc.CompressorNhcExt | modules/pico_6lowpan.c:896-933 | The compressor on its buffer, and the length that it overwrites in the frame |
| ExtNhc.DecompressorNhcExt | modules/pico_6lowpan.c:1010-1043 | The decompressor on its buffer, with the next header from the octet that follows |
| ExtNhc.ExtAlign | modules/pico_6lowpan.c:964-978 | The padding behind a rebuilt header |
| SlpPacket.Dispatched | modules/pico_6lowpan.c:1493-1515 | Compressed packets start with the dispatch their receiver goes by |
| SlpPacket.PacketRoundTrips | modules/pico_6lowpan.c:1107-1225 | A packet whose headers survive, and which is not misread, comes back with its length fields recomputed |
| SlpPacket.PacketRoundTripsIff | modules/pico_6lowpan.c:1107-1225 | Where decompression reads what is there, a packet without extension headers comes back so if and only if its header and its UDP header do, or its payload, with an in-line next header, does not begin like a compressed header that the decompressor goes on to; nothing is said of one whose header does not come back and takes eight octets or more of what follows, in front of an extension header |
| SlpPacket.NeverMisled | modules/pico_6lowpan.c:1169-1223 | A packet whose header comes back is never one of those |
| SlpPacket.HopByHopLikeComesBack | modules/pico_6lowpan.c:936-958 | A payload that begins with 0xE0 or 0xE1, like compressed hop-by-hop options, is left alone |
| SlpPacket.ConsistentPacketUnchanged | modules/pico_6lowpan.c:1153-1166 | One whose length fields are right comes back unchanged |
| SlpFragments.FirstInStep | modules/pico_6lowpan.c:1387-1405 | After the first fragment, which fits the link, eight times the offset equals the cursor plus what compression saved |
| SlpFragments.NextInStep | modules/pico_6lowpan.c:1282-1327 | Every further fragment fits, moves on, and keeps the two in step |
| SlpFragments.RestTiles | modules/pico_6lowpan.c:1250-1327 | The fragments after the first tile the rest of the decompressed datagram |
| SlpFragments.RestFits | modules/pico_6lowpan.c:1282-1327 | Each of them fits the room the link has when it is cut |
| SlpFragments.AnyOrder | modules/pico_6lowpan.c:1517-1558 | Pieces that tile a datagram, each once and in any order: nothing before the last, then the datagram |
| SlpFragments.WithRepetitions | modules/pico_6lowpan.c:1517-1558 | Pieces with repetitions: nothing before the octets counted reach the size, and then what has arrived, with zeros elsewhere, which is the datagram exactly when every piece has arrived that is not all zeros |
| SlpDelivery.HeaderRoundTrips | modules/pico_6lowpan.c:1561-1573 | Size and tag are read back from both kinds of fragment header |
| SlpDelivery.CopyInsideIff | modules/pico_6lowpan.c:1517-1558 | Exactly when the octets of a fragment are copied into the buffer of its datagram, from what is on the wire |
| SlpDelivery.Isolated | modules/pico_6lowpan.c:159-175 | For acceptable arrivals: datagrams told apart by size, tag and link addresses do not disturb each other, in whatever order their fragments come |
| SlpDelivery.FirstDecompressed | modules/pico_6lowpan.c:1387-1405 | The first fragment alone decompresses to the first part of the packet, ending on its offset |
| SlpDelivery.FramesCarry | modules/pico_6lowpan.c:1268-1277 | Each frame sent fits the room the link has by then, and carries its piece of the datagram |
| SlpDelivery.DeliveredInAnyOrder | modules/pico_6lowpan.c:1575-1599 | Compressed, split for a link whose room may change, delivered in any order between acceptable fragments of other datagrams: nothing before the last fragment, then the packet, only its UDP length changed; the table entry is gone |
| SlpDelivery.DeliveredWithRepetitions | modules/pico_6lowpan.c:1536-1558 | The same when fragments are repeated: delivery at the arrival with which the octets counted reach the size, of the packet exactly when every piece has arrived by then that is not all zeros |
| SlpDelivery.DeliveredAsSent | modules/pico_6lowpan.c:1575-1599 | In particular the frames as they were sent, to a receiver that holds nothing, deliver the packet at the last one |
| SlpDriver.FragSender.FragFill | modules/pico_6lowpan.c:1268-1277 | The header and the octets of a fragment |
| SlpDriver.FragSender.Frag1stComp | modules/pico_6lowpan.c:1387-1405 | The first fragment and its cookie |
| SlpDriver.FragSender.FragNth | modules/pico_6lowpan.c:1282-1327 | The next fragment and the updated cookie |
| SlpDriver.FragSender.SendAll | modules/pico_6lowpan.c:1250-1327 | Sending ends, with all fragments sent, whatever room the link has for each |
| SlpDriver.Reassembler.Process | modules/pico_6lowpan.c:1517-1599 | An acceptable fragment updates the table in place |
| SlpDriver.DecompressChunks | modules/pico_6lowpan.c:1181-1218 | The loop rebuilds one header after the other until none is announced or the UDP header was one |
| SlpDriver.IphcDecompress | modules/pico_6lowpan.c:1169-1223 | A frame is decompressed, header by header, and its length and next header are filled in |
| Ieee802154.Swap | modules/pico_802154.c:56-62 | Three exclusive-ors swap two different octets and touch no other |
| Ieee802154.ToIetf | modules/pico_802154.c:66-84 | The part of an address its mode uses is reversed in place, the rest stays |
| Ieee802154.HeaderRoundTrips | modules/pico_802154.c:90-173 | Both modes, both addresses over their length, the header length, the security bit and the sequence number are read back from a written header |
| Ieee802154.Format | modules/pico_802154.c:141-173 | The header is written into the buffer, in front of what was there |
| Ieee802154.ReadAddress | modules/pico_802154.c:114-138 | The source and the destination read from a frame |
| Ieee802154.IidRoundTripsIff | modules/pico_802154.c:285-406 | The identifier of a unicast destination is found again from its link address exactly when it is no 16-bit one or starts with two zero octets |
| Ieee802154.IidExample | modules/pico_802154.c:285-406 | For the identifier 01 00 00 ff fe 00 00 07 another one is found |
| Ieee802154.DestinationElidedIff | modules/pico_6lowpan.c:471-502 | A link-local destination is elided from the compressed header exactly then |
| Ipv4Fragments.Sender.ReboundLarge | modules/pico_ipv4.c:1464-1510 | The loop sends all fragments of a payload under one identification, which then moves on once |
| Ipv4Fragments.Sender.FramePush | modules/pico_ipv4.c:1043-1076 | The identification moves on behind a frame that no other follows; the offset is kept for UDP and ICMP only |
| Ipv4Fragments.FragmentsChain | modules/pico_ipv4.c:1474-1504 | The fragments tile the payload in units of eight octets, none above 1480, and all but the last announce another |
| Ipv4Fragments.InsertSorted | modules/pico_fragments.c:129-140 | Insertion keeps the order of offsets, adds one fragment, and refuses an offset that is there |
| Ipv4Fragments.ProcessKeeps | modules/pico_fragments.c:500-573 | Whatever arrives, the stored fragments have one source, one destination, the current identification and different offsets, and no complete set is kept |
| Ipv4Fragments.RunKeeps | modules/pico_fragments.c:500-573 | The same on every run of arrivals and expiries |
| Ipv4Fragments.StrangersPassedOver | modules/pico_fragments.c:519-551 | Later fragments of other datagrams and fragments of other hosts change nothing |
| Ipv4Fragments.ExpiredStaysSilent | modules/pico_fragments.c:241-263 | After an expiry nothing of that identification is kept or delivered until a fragment of another one arrives |
| Ipv4Fragments.NewFirstIsLost | modules/pico_fragments.c:519-534 | The first fragment of another datagram ends a reassembly and is not kept itself |
| Ipv4Fragments.DeliveredOnce | modules/pico_fragments.c:216-239 | Fragments of one datagram in any order, with repetitions: one delivery, on the arrival that completes the set |
| Ipv4Fragments.SplitAndReassembled | modules/pico_fragments.c:304-358 | The same from the payload that was split: exactly that payload is delivered |
| Ipv4Fragments.Receiver.CheckComplete | modules/pico_fragments.c:216-239 | The scan stops at a gap or at the last fragment, and completes accordingly |
| Ipv4Fragments.Receiver.Reassemble | modules/pico_fragments.c:304-358 | The payloads of all stored fragments are copied one behind the other, and the tree is emptied; the datagram is what the buffer holds |
| Ipv4Fragments.CopyFitsIff | modules/pico_fragments.c:304-358 | The copy fits the buffer exactly when no octets are stored behind the completing fragment |
| Ipv4Fragments.Receiver.ProcessFrag | modules/pico_fragments.c:500-573 | A fragment updates tree and identification in place |
| Ipv4Fragments.Receiver.Expire | modules/pico_fragments.c:241-263 | An expiry empties the tree in place and keeps the identification |
| DnsCompression.OneZero | modules/pico_dns_common.c:1481-1484 | Only the last octet of a name is zero, so its string length is its length |
| DnsCompression.PlainDecodes | modules/pico_dns_common.c:83-126 | An uncompressed name decodes to itself |
| DnsCompression.NoOverlap | modules/pico_dns_common.c:1463-1489 | The place a suffix is found at lies wholly before the suffix |
| DnsCompression.NameKept | modules/pico_dns_common.c:1521-1556 | The compressed name decodes to what it was, in no more steps than it had octets and one |
| DnsCompression.CompressionKeeps | modules/pico_dns_common.c:1494-1556 | The pointer goes back, the name and every name read before the cut decode as before, and what followed the name follows it still |
| DnsCompression.IntactIff | modules/pico_dns_common.c:1494-1556 | Compressing a name leaves it readable and what followed it in place if and only if a suffix other than the root occurs before it |
| DnsCompression.RootCutLoses | modules/pico_dns_common.c:1521-1556 | Cut at the root, the name is still read, but the packet grows, the first octet behind the name is lost, and the octet behind the packet comes in, which shows unless all of them are the same |
| DnsCompression.CompressFindPtr | modules/pico_dns_common.c:1463-1489 | The first earlier occurrence of a name, or none |
| DnsCompression.CompressName | modules/pico_dns_common.c:1494-1556 | The packet is rewritten in place: cut at the first label whose suffix occurs before and the rest moved up, or cut at the root, with the length one more |
| DnsCompression.DecompressName | modules/pico_dns_common.c:83-126 | Decompression ends and returns the decoded name as a string |
| DnsCompression.NamelenComp | modules/pico_dns_common.c:49-73 | One less than what a name takes in the packet, compressed or not |
| DnsPacket.AllNamesSurvive | modules/pico_dns_common.c:1561-1645 | After all entries, of each of which a suffix other than the root occurs before when its turn comes, are compressed, every name decodes to what it was |
| DnsPacket.EntriesFound | modules/pico_dns_common.c:1561-1645 | Walking the compressed packet, name by name and data by data, finds the same entries, one behind the other and up to its end |
| DnsPacket.StaysIntactIff | modules/pico_dns_common.c:1521-1645 | Compression leaves the packet intact, name by name, if and only if every name but the first has such a suffix by then |
| DnsPacket.EntryLoses | modules/pico_dns_common.c:1521-1556 | The first name without one is cut at the root: the packet grows, and the first octet of its data is lost |
| DnsPacket.RootCutExample | modules/pico_dns_common.c:1521-1556 | A packet of two one-letter names, of which the second is cut at the root and the packet not left intact |
| DnsPacket.SuffixLocal | modules/pico_dns_common.c:1521-1556 | Where a name is cut does not depend on what follows it |
| DnsPacket.CompressSections | modules/pico_dns_common.c:1561-1592 | The walk over the records, with each data length read from the packet, compresses each where it stands by then |
| DnsPacket.CompressPacket | modules/pico_dns_common.c:1599-1645 | The whole packet, questions first, is compressed in place |
| DnsPacket.CompressAndReturn | modules/pico_dns_common.c:83-126 | A name that is compressed in place, if only at the root, and then decompressed is returned as it was |
| DnsNotation.LabelsLength | modules/pico_dns_common.c:291-297 | The string length of the labels tells whether a label is empty |
| DnsNotation.DotsPutBack | modules/pico_dns_common.c:345-355 | Walking the labels puts the dots back at exactly the separators |
| DnsNotation.NotationRoundTripsIff | modules/pico_dns_common.c:226-285 | A name comes back from its labels exactly when it has at least two characters and no empty label |
| DnsNotation.EmptyLabelExample | modules/pico_dns_common.c:226-285 | The name a..b does not come back |
| DnsNotation.LabelsAreName | modules/pico_dns_common.c:311-334 | The label lengths chain to the terminator |
| DnsNotation.NameToDnsNotation | modules/pico_dns_common.c:311-334 | The in-place loop writes the lengths and touches nothing but separators |
| DnsNotation.DnsNotationToName | modules/pico_dns_common.c:345-355 | The in-place loop writes the dots |
| DnsNotation.ConvertUrl | modules/pico_dns_common.c:263-285 | The conversion to labels, with its length check |
| DnsNotation.ConvertQname | modules/pico_dns_common.c:226-250 | The conversion from labels, with its length check |
| TimerHeap.RootIsMin | include/heap.h:96-101 | In a heap the first element is a smallest one |
| TimerHeap.Rise | include/heap.h:42-65 | A step up of the new element leaves the rest in order |
| TimerHeap.Sink | include/heap.h:66-95 | A step down of the last element leaves the rest in order |
| TimerHeap.Heap.IncreaseSize | include/heap.h:21-41 | Regrowing a block loses no element before the new index, fails exactly without room or memory, and then changes nothing |
| TimerHeap.Heap.Insert | include/heap.h:42-65 | The element is added and order kept, a root that is no greater stays, every index in use has storage although `size` drifts; failure leaves everything as it was and happens exactly when a block is needed and cannot be had |
| TimerHeap.Heap.Peek | include/heap.h:66-95 | A smallest element is returned and removed, and order kept |
| TimerHeap.Heap.First | include/heap.h:96-101 | A smallest element, or none |
| TimerHeap.Heap.CheckTimers | stack/pico_stack.c:593-611 | The timers due before `now` come first in the order of their expiry, each once, and fire unless a callback has cancelled them; no key is lost, and when nothing is cancelled no timer is; the others, and those that callbacks start, stay |
| TimerHeap.Heap.FireRoot | stack/pico_stack.c:598-610 | The element removed after a callback is the one that was first, whatever timers the callback started or cancelled |
| TimerHeap.Heap.CancelTimer | stack/pico_stack.c:613-633 | The first element with the number loses it in place, and order is kept |
| TimerHeap.FireNext | stack/pico_stack.c:598-610 | What fired stays in order and in front of what is left |
| TimerHeap.FiredWasThere | stack/pico_stack.c:593-611 | What fires was there from the start, and fires no more often than it was there |
| Multicast.UpdateConveysIff | modules/pico_mcast.c:68-229 | The report of an update turns the old reception into the new one exactly when the mode changes or one list contains the other |
| Multicast.UntoldLossExample | modules/pico_mcast.c:68-229 | From including {1} to including {2}: the report lets 2 in and leaves 1, which is wanted no more |
| Multicast.CreateConveys | modules/pico_mcast.c:89-92 | The report of a new group tells its filter |
| Multicast.DeleteConveys | modules/pico_mcast.c:235-243 | The report of a deleted group lets nothing through |
| Multicast.UntoldIffEqual | modules/pico_mcast.c:139-142 | In an unchanged mode nothing is reported exactly when the lists are equal |
| Multicast.Differ.IncInc | modules/pico_mcast.c:68-143 | The trees and the counter for two including filters |
| Multicast.Differ.ExclExcl | modules/pico_mcast.c:178-229 | The trees and the counter for two excluding filters |
| Multicast.Differ.GenerateFilter | modules/pico_mcast.c:235-258 | The record and its sources, whose number is always the counter |
| Routing.ValidNetmask | modules/pico_ipv4.c:149-176 | Exactly the masks whose ones come before their zeros are accepted, with their length |
| Routing.CompareTransitive | modules/pico_ipv4.c:527-555 | The comparison of routes orders them |
| Routing.LongestMatch | modules/pico_ipv4.c:573-591 | The route found matches and has the greatest mask of those that do; none is found only if none matches |
| Routing.InsertSorted | modules/pico_ipv4.c:527-555 | Insertion keeps the order and refuses an equal route |
| Routing.RouteAddKeeps | modules/pico_ipv4.c:1160-1218 | Adding a route keeps every route on a link that is there |
| Routing.RouteDelKeeps | modules/pico_ipv4.c:1220-1242 | So does deleting one |
| Routing.LinkAddKeeps | modules/pico_ipv4.c:1245-1324 | So does adding a link, with the routes that come with it |
| Routing.LinkDelKeeps | modules/pico_ipv4.c:1345-1393 | So does deleting a link: its routes go, and the default links that were it become null |
| Routing.RunKeeps | modules/pico_ipv4.c:1160-1393 | On every run of these operations the routes and the default links are on links that are there |
| Routing.Router.Find | modules/pico_ipv4.c:573-591 | The scan from the last route |
| Routing.Router.AddARoute | modules/pico_ipv4.c:1160-1218 | Adding a route in place, with its refusals |
| Routing.Router.AddALink | modules/pico_ipv4.c:1245-1324 | Adding a link in place |
| Routing.Router.CleanupRoutes | modules/pico_ipv4.c:1326-1337 | Deleting by key while scanning deletes exactly the routes over the link |
| Routing.Router.DeleteLink | modules/pico_ipv4.c:1345-1393 | Deleting a link in place |

## Left out

- Allocation failures everywhere but in the timer heap, and everything that needs devices, sockets, clocks or logging.
- The timer that expires a 6LoWPAN reassembly; the one that expires IPv4 fragments is an event of a run, without its times.
- PPP: AT strings and packet contents, the text mode of the poll, data frames without address and control compression, retransmission contents; frames of fewer than two octets in the sender.
- PppFraming.Deframer.Poll: what a poll that is entered with a full buffer does to the octets behind it, and everything after that; it is only reported.
- 6LoWPAN: contexts, uncompressed fragmentation, and the byte-by-byte joining of decompressed chunks, which is concatenation here.
- IphcDriver.CompressorAddress: addresses that a context compresses.
- SlpPacket.PacketRoundTrips: packets that have extension headers themselves; each such header is treated alone, in ExtNhc. One with an in-line next header needs some payload, as the decompressor looks at its first octet.
- SlpPacket.PacketRoundTripsIff: the same. Whether a packet can come back by accident whose header does not, and which leads the decompressor to an extension header behind eight or more octets of the payload, is not decided.
- SlpDelivery.Isolated: runs of acceptable fragments only; what a copy outside the buffer of its datagram does, and what decompression makes of octets behind the frame, are not part of this model.
- SlpDelivery.DeliveredInAnyOrder: the same; and each fragment arrives once. The packet has at most 2047 octets.
- SlpDelivery.DeliveredWithRepetitions: runs up to the first delivery of the datagram.
- SlpDriver.Reassembler.Process: acceptable fragments only.
- Ipv4Fragments.SplitAndReassembled: payloads of up to 65515 octets and an identification that is not zero, without another datagram in between; the two lemmas on strangers say what others do.
- Ipv4Fragments.Receiver.Reassemble: what octets copied behind the buffer overwrite. The source copies every stored fragment, and the copy fits exactly when nothing is stored behind the completing one.
- DnsCompression.CompressName: names before which there is no zero octet at all, for which the search walks on past the name; and the octets that a cut at the root writes in front of the packet, which are only counted. Names lie below offset 16384.
- DnsCompression.DecompressName: names that cannot be read, and names that exceed the buffer of 256 octets.
- DnsPacket.CompressSections: the same as CompressPacket.
- DnsPacket.CompressPacket: packets in which every name after the first has a suffix other than the root before it; for the others only the first name that breaks the packet is followed.
- TimerHeap.Heap.CheckTimers: a callback that cancels its own timer, which the source then frees twice; cancelling by hash.
- Routing.RunKeeps: callers pass links that are there.
- Routing.Router.AddALink: joining the multicast group of all hosts on the new link.
- Routing.Router.DeleteLink: leaving the multicast groups of the link.
- Multicast.Differ.GenerateFilter: the list of sources is there unless the group is deleted.
- The red-black tree, checksums and frame handling are abstracted; AODV, ARP, IGMP timers, DHCP and the IP filter are not modelled.
