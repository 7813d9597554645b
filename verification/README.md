# cilium-clat in Dafny

cilium-clat gives IPv6-only pods an IPv4 address. Two stateless BPF programs on the pod interface
translate between the families (RFC 7915, with the /96 mapping of section 2.2 of RFC 6052), and a
chained CNI plugin installs, checks and removes the address, neighbour, routes and filters they
need. This project models both parts and proves what they promise.

**The translator.** `Kernel.Skb` is the socket buffer: its bytes, how much of them is linear, the
L3 protocol, and the checksum mode with `csum`. Each BPF helper is a method that may refuse for no
visible reason; a ghost flag `faulted` remembers that one did. `Egress.ClatEgress` and
`Ingress.ClatIngress` follow `clat_egress` and `clat_ingress` statement by statement on that buffer
and are proved against two relations, `EgressSpec.Rel` and `IngressSpec.Rel6`, and two verdict
functions, `Decision` and `Decision6`. Everything else about the translator is a lemma over all
frames in those relations, stated against independent references: the RFC 1071 arithmetic of the
repository's Go packet oracle, header fields read back from bytes, IP reassembly, and the other
direction of translation. `Octets` states both translations byte by byte and both verdicts as an
if-and-only-if per counter, in numbered octets, so that no table of the specification stands on its
own; the option walk and the sum of the UDP pseudo-header have their own theorems.

**The plugin.** `Netns.NetNs` holds links, addresses, neighbours, routes, qdiscs and filters. ADD,
DEL and CHECK are methods on it, with a failure injected at any setup step; each is proved equal to
a function of the old namespace, and `Lifecycle` proves the properties of whole runs. `Commands`
states what stops, completes and fails the commands in the fields of the namespace.

Ones'-complement sums are compared with `Cong` (a multiple of 0xffff apart). `Le` is the sum of
little-endian 16-bit words, as the machine computes it; `Sum16` is the big-endian sum of the oracle;
`VerifiesIsReference` and `CsumIsReference` tie the two together. A *residual* is the sum of
pseudo-header and message. A packet normally leaves the pod with a *partial* checksum, the bare
pseudo-header sum, which the stack or the device completes later; round trips and quotes are stated
for the packet the far end sees, and `Meant` is the transport part the pod meant to send.

| file | content |
|---|---|
| `Wrappers`, `Bytes`, `Checksum` | optional values, byte strings, ones'-complement arithmetic and its reference |
| `Kernel`, `Counters` | socket buffer, BPF helpers, counter map |
| `Headers`, `Options`, `UdpChecksum` | header layouts, option walk, full UDP checksum |
| `EgressSpec`, `Egress`, `EgressTheorems` | IPv4 to IPv6 |
| `IngressSpec`, `Ingress`, `IngressTheorems` | IPv6 to IPv4, ICMPv6 errors included |
| `Octets` | both directions in octets: the translation of every header and error, the frames behind every counter |
| `Existence` | every accepted frame has a translation; what the embedded checksum of an error can become |
| `Wire` | what the far end sees of a packet, its partial checksum completed on the way |
| `RoundTrip`, `Reassembly`, `Quoting`, `Pmtu`, `Traffic` | properties that span both programs and many packets |
| `Witnesses` | accepted packets at which the conditions below bite |
| `Netns`, `Attach`, `Plugin`, `Lifecycle`, `Commands` | the CNI plugin and its runs |

## What turned out to be conditional

Each of these has a proved exact condition on what goes in; where a second name is given it is an
accepted input at which the condition bites.

- A UDP datagram without a checksum leaves egress with a wrong one if the IPv4 pseudo-header sum is
  zero, unless its bytes sum to zero (`EgressUdpWithoutChecksum`, with a concrete datagram in
  `EgressUdpZeroPseudoCounterexample`). The design document accepts this; read as a partial
  checksum the branch is right (`EgressUdpZeroPseudoPartial`).
- An echo reply without identifier, sequence number and data is the one message whose verdict
  changes: all zeros in IPv4, which is wrong, is right in IPv6 (`EgressEchoResidual`,
  `IngressEchoResidual`; `ZeroReplyLeavesRight`, `ZeroReplyArrivesWrong`).
- A TCP checksum of 0xffff comes back as 0 (`RoundTripIsIdentity`, `FullChecksumComesBackZero`).
- IPv4 protocol numbers that mean something else in IPv6 are accepted on egress. A packet that goes
  out and comes back, or is quoted, keeps its protocol exactly when the number is not 58 and not an
  extension header (`RoundTripProtocol`, `QuotedProtocol`, `ReplyRefused`,
  `ProtocolComesBackChanged`).
- Ingress writes a wrong total length exactly when the translated payload exceeds 65515 bytes
  (`IngressLength`, `LongPayloadWraps`).
- The length in an embedded IPv4 header is right exactly when the quoted packet claims 0 to 65515
  transport bytes; a quoted fragment may claim less than its Fragment header
  (`EmbeddedLengthExactly`, `EmbeddedLengthTooShort`).
- If the payload length of an error ends before the quoted checksum, the program patches what lies
  behind the message, and the message keeps its residual exactly when the patch is zero
  (`CutBeforeField`, `CutErrorArrivesWrong`).
- The embedded checksum of a quoted packet can lose a carry in a plain 32-bit addition exactly when
  it is below the representative of the address difference (`EmbeddedChecksumExact`,
  `QuotedChecksumReturnsExactly`, `CarryIsLost`), and a TCP checksum seen as 0 is left alone, which
  is right exactly when that difference is zero (`QuotedChecksumReturnsExactly`,
  `ZeroChecksumStays`). The design document says it is recomputed. The
  outer ICMPv4 checksum is right either way (`IngressErrorResidual`).
- The source promises to refuse a malformed option list. It accepts one whose only fault is that a
  last option other than a source route claims to run past the list (`OverrunIsAccepted`,
  `OverrunLeaves`).
- The design document says the route MTU keeps packets within the link. A fragment needs eight bytes
  more (`RouteMtuCoversLink`, `FragmentMissesLink`).
- A reply shorter than 62 bytes is not translated (`ReplyAccepted`, `ShortReplyPasses`).
- Fail-open with a missing pod interface reports success in ADD and failure in CHECK, although the
  code comment says a pod started under fail-open is no CHECK failure (`AddCheckAgree`,
  `FailOpenWithoutInterface`).
- With gateway 0.0.0.0 the gateway's own host route looks like a foreign default route and CHECK
  passes whatever else is missing; and CHECK takes another route to the gateway on the pod interface
  for the plugin's own (`CheckSeesEveryPiece`).
- The code comments call setup idempotent and say that partial state has been undone when ADD fails.
  Repeating a successful ADD keeps or removes everything exactly when it does not fail among the
  four IPv4 steps (`ReAddIsSafeExactly`, `FailingReAddLeavesFilters`).
- DEL brings back the namespace ADD found exactly when that held nothing ADD replaces or DEL deletes
  (`DelUndoesAddExactly`).

## Model

| member | source | states |
|---|---|---|
| `Checksum.TwoFoldsSuffice` | bpf/clat.c:154-160 | two folds of any 32-bit sum give what folding to the end gives |
| `Checksum.CsumFoldSpec` | bpf/clat.c:154-160 | the fold is in the class of minus the sum, is 0xffff only for zero, and 0 only for a non-zero multiple of 0xffff |
| `Checksum.NativeStoreIsNetworkOrder` | bpf/clat.c:726-727 | a checksum of native words stored natively is byte for byte the reference checksum in network order |
| `Checksum.Sum16IsSwappedLe` | internal/clat/packet_test.go:53-62 | the oracle's big-endian sum is the native sum with its bytes swapped, odd lengths included, and both vanish together |
| `Checksum.WordsAreLe` | bpf/clat.c:164-172 | summing 32-bit words and summing 16-bit words give the same class for every buffer of whole words |
| `Checksum.FoldAllSpec` | internal/clat/packet_test.go:64-69 | the oracle's fold keeps the class and is zero only for zero |
| `Checksum.CsumIsReference` | internal/clat/packet_test.go:71-78 | the complement characterised by its class is the folded, complemented sum of the oracle |
| `Checksum.VerifiesIsReference` | internal/clat/packet_test.go:343-371 | a message verifies in this model exactly when the oracle's checksum over pseudo-header and message is zero |
| `Kernel.CsumDiff` | bpf/include/bpf_helper_defs.h:755-784 | some 32-bit value congruent to seed minus old plus new, non-zero when only non-zero bytes are added |
| `Kernel.NewFieldMoves` | bpf/include/bpf_helper_defs.h:254-287 | the patched field moves by the difference, down when complemented and up when partial, and never to zero when mangling is asked for |
| `Kernel.FieldMovedUnique` | bpf/include/bpf_helper_defs.h:254-287 | outside partial mode the class of the difference alone fixes the new field, whatever 32-bit value carried it |
| `Kernel.Skb.EnsureLinear` | bpf/clat.c:200-207 | on success the asked bytes are linear; it fails only for a short frame or a refusing helper |
| `Kernel.Skb.LoadBytes` | bpf/include/bpf_helper_defs.h:688-707 | the bytes of the asked window, or failure for a window outside the frame or a refusal |
| `Kernel.Skb.StoreBytes` | bpf/include/bpf_helper_defs.h:203-222 | overwrites exactly the window; `csum` stays in step when the flag matches the region |
| `Kernel.Skb.L4CsumReplace` | bpf/include/bpf_helper_defs.h:254-287 | changes only the field, as each checksum mode demands, and keeps `csum` in step |
| `Kernel.Skb.ChangeProto` | bpf/include/bpf_helper_defs.h:822-851 | 20 bytes come or go behind the MAC header, the rest keeps its order, `csum` stays in step |
| `Kernel.Skb.AdjustRoom` | bpf/include/bpf_helper_defs.h:1215-1267 | bytes come or go behind the base L3 header, the rest keeps its order; for even amounts `csum` stays in step unless a reset was allowed |
| `Counters.CounterMap.Count` | bpf/clat.c:119-124 | the named counter grows by one, modulo 64 bits, and every other counter keeps its value |
| `Counters.CounterMap.DropPacket` | bpf/clat.c:126-130 | a drop counts once, under its own counter and no other, and shoots the packet |
| `Counters.SlotsAreNamed` | internal/clat/counters.go:11-30 | no two counters share a slot, and the name the reader prints for a slot is that of the counter the programs bump there |
| `Counters.EveryCounterCounts` | bpf/clat.c:90-130 | over any sequence of outcomes each counter grows by the packets whose outcome names it, modulo 2^64, and by nothing else |
| `Counters.BumpAddsOne` | bpf/clat.c:119-124 | the total over all slots grows by exactly one, less 2^64 when the slot wraps |
| `Counters.CountersSumToHandled` | bpf/clat.c:119-130 | over any sequence of outcomes the counters together grow by the number of packets not passed through |
| `Traffic.Run` | bpf/clat.c:312-988 | for any sequence of buffers in any direction, under any refusals: passed packets are untouched, the other accepted ones completely translated, drops carry a reason of their direction, a packet no helper refused meets the verdict it is owed, and each counter grows by exactly the packets that met its verdict |
| `Headers.Ip4HeaderVerifies` | bpf/clat.c:715-729 | an IPv4 header summed as the program does verifies, and its checksum bytes are the reference's in network order |
| `Options.HasSourceRoute` | bpf/clat.c:236-268 | without refusals the answer is true exactly for an illegal area or a walk that meets a source route or malformed option; 40 rounds always suffice |
| `Options.WalkIsAreaWalk` | bpf/clat.c:374-382 | the walk depends only on the bytes of the option area, for every area inside the frame |
| `Options.WalkReadsEncodedOptions` | bpf/clat.c:245-267 | over the encoding of any option list (section 3.1 of RFC 791) the walk refuses exactly when the list holds a loose or strict source route |
| `Options.ParseEncodes` | bpf/clat.c:231-235 | every area, whatever its bytes, is a list of whole options and a tail that ends or is cut in one of three ways |
| `Options.ParseReads` | bpf/clat.c:231-235 | no area is two of these, so what the next rows say of encodings they say of all areas |
| `Options.WalkRefusesExactly` | bpf/clat.c:236-268 | an area is refused if and only if it holds a source route, whole or cut, an option without a length or a length below 2 |
| `Options.OverrunIsAccepted` | bpf/clat.c:260-265 | the promise to refuse every source route and every malformed list is kept if and only if there is a source route or the list does not end in another option that overruns it |
| `Options.OverrunHappens` | bpf/clat.c:265 | a record route of 40 bytes in an area of four is accepted |
| `UdpChecksum.UdpFullCsum` | bpf/clat.c:272-309 | for every length up to 10240 the chunked loop yields the complement of seed plus datagram, never zero; it fails only for longer or missing data or a refusal |
| `UdpChecksum.FullCsumIsReference` | bpf/clat.c:303-306 | stored natively that value is the oracle's checksum of pseudo-header and datagram, all ones for zero |
| `UdpChecksum.PaddedSum` | bpf/clat.c:292-301 | zero padding of the tail never changes a sum, odd tails included |
| `Egress.PseudoFoldsToZero` | bpf/clat.c:464-467 | the zero test is true exactly when the 12-byte IPv4 pseudo-header sums to a ones'-complement zero |
| `Egress.MakeRoom` | bpf/clat.c:374-392 | options go and room for the new headers comes, with every byte behind the IPv4 header kept in order |
| `Egress.WriteHeaders` | bpf/clat.c:394-423 | the new headers and Ethernet type stand in front of untouched transport bytes |
| `Egress.UdpFull` | bpf/clat.c:476-492 | a datagram without checksum is given the full one or dropped with the counter the verdict names |
| `Egress.Udp` | bpf/clat.c:441-493 | every UDP branch, with its drop reasons, under any refusals |
| `Egress.Icmp` | bpf/clat.c:494-525 | echo types change and the checksum gains pseudo-header and type change; other types are dropped |
| `Egress.ClatEgress` | bpf/clat.c:312-535 | under any refusals: bytes untouched and no counter, or a complete translation and one count, or a drop and one count of an egress reason; without refusals the verdict is `Decision`; a buffer whose protocol contradicts its Ethernet type is never translated; `csum` stays right on every accepted path |
| `Octets.EgressOctets` | bpf/clat.c:384-423 | every octet of the IPv6 and Fragment header from the octets of the IPv4 header: zero flow label, zero reserved octet and bits, prefix and destination in place |
| `Octets.EgressEchoOctets` | bpf/clat.c:499-508 | ICMP 8 leaves as 128 and 0 as 129, nothing else leaves |
| `Octets.EgressVerdicts` | bpf/clat.c:329-535 | for each drop counter, and for translation, exactly the frames that meet it, in octets |
| `Octets.EgressDestinations` | bpf/clat.c:349-354 | nothing to 224.0.0.0/4 or 255.255.255.255 is translated and what the pod sends there is counted as multicast; a TCP segment without options to any other address is translated |
| `Octets.OptionOctets` | bpf/clat.c:374-378 | the option area is refused exactly for octet 131 or 137, a missing length or one below 2 before the end of the list |
| `EgressTheorems.EgressHeader` | bpf/clat.c:384-415 | every header field read back from the output, fragment fields included; the length never overflows and matches the frame whenever the input's did |
| `EgressTheorems.EgressCarriesBytes` | bpf/clat.c:384-423 | every transport byte but checksum and echo type is carried over in order |
| `EgressTheorems.EgressTransportResidual` | bpf/clat.c:428-452 | unfragmented TCP and checksummed UDP keep their residual, so output verifies if and only if input did |
| `EgressTheorems.EgressEchoResidual` | bpf/clat.c:494-525 | an echo keeps its residual; verdicts agree but for the all-zero message |
| `EgressTheorems.EgressPartial` | bpf/clat.c:425-452 | a partial field holding the IPv4 pseudo-header sum holds the IPv6 one afterwards |
| `EgressTheorems.EgressUdpNeverZero` | bpf/clat.c:441-493 | no accepted UDP header leaves with a zero checksum field, in any mode |
| `EgressTheorems.EgressUdpWithoutChecksum` | bpf/clat.c:454-492 | a datagram without checksum verifies over IPv6 if and only if the IPv4 pseudo-header sum is not zero or the datagram sums to zero |
| `EgressTheorems.EgressUdpFullChecksum` | bpf/clat.c:476-492 | the checksum bytes written are the oracle's checksum in network order |
| `EgressTheorems.EgressUdpZeroPseudoPartial` | bpf/clat.c:464-475 | under the partial reading the zero field becomes the IPv6 pseudo-header sum |
| `EgressTheorems.OutIsPatched` | bpf/clat.c:425-493 | every TCP and UDP translation, full UDP checksums included, moves the checksum the datagram had or should have had by the difference of the addresses |
| `EgressTheorems.EgressUdpZeroPseudoCounterexample` | bpf/clat.c:464-475 | a concrete accepted datagram whose every translation fails to verify |
| `Wire.RelGoesOut` | bpf/clat.c:526-534 | every translation is seen as some frame by the far end |
| `Wire.CompletionCommutes` | bpf/clat.c:425-452 | completing a partial checksum after translation is translating the completed one |
| `Wire.WireIsPatched` | bpf/clat.c:425-493 | on the wire every TCP and UDP packet differs from what the pod meant by the patch of a complete checksum, whichever way it left |
| `Wire.PartialArrivesRight` | bpf/clat.c:425-452 | a packet that leaves with a right partial checksum verifies over IPv6 once completed, as it would have over IPv4 |
| `Ingress.BuildIp4` | bpf/clat.c:715-727 | the header has the checksum of its own bytes whichever 32-bit value the helper returned |
| `Ingress.Select` | bpf/clat.c:633-674 | reads only, and selects exactly the frames that are CLAT return traffic unless a pull is refused |
| `Ingress.Reshape` | bpf/clat.c:707-735 | both headers go, the IPv4 header comes, transport bytes keep their order |
| `Ingress.Echo` | bpf/clat.c:786-797 | the type byte changes back and the checksum loses pseudo-header and type change, nothing else moves |
| `Ingress.LoadQuoted` | bpf/clat.c:822-842 | accepts exactly complete quoted headers of the pod's own flow without further extension headers |
| `Ingress.PlaceError` | bpf/clat.c:887-904 | the message shrinks by 20 or 28 bytes, the outer header is rewritten for it, the quoted bytes keep their order |
| `Ingress.RewriteQuote` | bpf/clat.c:908-974 | the quoted bytes change only in echo type and checksum field, and the running difference follows every change |
| `Ingress.Error` | bpf/clat.c:799-979 | an error is translated completely or dropped for the reason its bytes give, under any refusals |
| `Ingress.ClatIngress` | bpf/clat.c:613-988 | under any refusals: bytes untouched and no counter, or a complete translation and one count, or a drop and one count of an ingress reason; without refusals the verdict is `Decision6`; a buffer whose protocol contradicts its Ethernet type is never translated; `csum` stays right on every accepted path |
| `Octets.IngressVerdicts` | bpf/clat.c:629-835 | for pass, translation and each drop counter exactly the frames that meet it, in octets, the nine refused next headers spelt out |
| `Octets.IngressOctets` | bpf/clat.c:677-735 | every octet of the IPv4 header but its checksum from the octets of the IPv6 and Fragment header, for errors too |
| `Octets.IngressEchoOctets` | bpf/clat.c:786-793 | ICMPv6 128 arrives as 8 and 129 as 0 |
| `Octets.ErrorOctets` | bpf/clat.c:550-610 | type, code and second word of every translated error by the raw type and code of the ICMPv6 error |
| `Octets.TooBigOctets` | bpf/clat.c:848-856 | the MTU told the pod is the reported one, at most 65535, less 20, or 28 for a quoted fragment, and at least 68 |
| `Octets.PointerOctets` | bpf/clat.c:596-604 | the octets the two pointers point at begin the same field of the quoted and of the embedded header |
| `Octets.EmbeddedOctets` | bpf/clat.c:863-876 | every octet of the embedded header but its checksum from the octets of the quoted headers |
| `Octets.EmbeddedEchoOctets` | bpf/clat.c:924-952 | a quoted echo request reaches the pod as one, a quoted reply as a reply |
| `Octets.PseudoOctets` | bpf/clat.c:478-481 | the layout of both pseudo-headers the checksum theorems sum over |
| `IngressTheorems.IngressHeader` | bpf/clat.c:715-735 | every outer IPv4 field read back from the output, and the outer header verifies, also after the rewrite for errors |
| `IngressTheorems.IngressLength` | bpf/clat.c:715-719 | for frames that match their length the output matches if and only if the translated payload is at most 65515 bytes |
| `IngressTheorems.EmbeddedLengthExactly` | bpf/clat.c:867-868 | the embedded total length is right and at least 20 if and only if the quoted packet claims 0 to 65515 transport bytes |
| `IngressTheorems.IngressCarriesBytes` | bpf/clat.c:707-768 | every transport byte but checksum and echo type is carried over in order |
| `IngressTheorems.IngressErrorCarriesBytes` | bpf/clat.c:887-974 | every accepted error, whatever it quotes, carries all quoted transport bytes over in order but for the embedded checksum and echo type, and its length follows |
| `IngressTheorems.IngressSelectivity` | bpf/clat.c:646-674 | only traffic to the pod from the prefix or errors about its flows is rewritten; from outside the prefix the result is always an ICMPv4 error from the configured address |
| `IngressTheorems.ErrorTypeReads` | bpf/clat.c:844-876 | the output carries the type, code, second word and embedded header computed for it at their places; what they are in octets is in `Octets.ErrorOctets`, `Octets.TooBigOctets`, `Octets.PointerOctets` and `Octets.EmbeddedOctets` |
| `IngressTheorems.IngressTransportResidual` | bpf/clat.c:741-768 | unfragmented TCP and UDP keep their residual, so output verifies if and only if input did |
| `IngressTheorems.IngressPartial` | bpf/clat.c:741-768 | a partial field holding the IPv6 pseudo-header sum holds the IPv4 one afterwards |
| `IngressTheorems.IngressEchoResidual` | bpf/clat.c:779-797 | an echo keeps its residual; the output verifies if and only if the input did and was not a reply with nothing but type and checksum |
| `IngressTheorems.IngressErrorResidual` | bpf/clat.c:844-976 | for every mapped type, quote, inner protocol and truncation all bytes behind the IPv4 header verify as ICMPv4 if and only if all bytes behind the IPv6 header did as ICMPv6, even where the embedded checksum was skipped or lost a carry; and so does the message cut at its length, if that is not before the end of the rewritten field |
| `IngressTheorems.CutBeforeField` | bpf/clat.c:920-976 | where the payload length ends before the rewritten field the message keeps its residual if and only if the rewriting behind it sums to zero |
| `IngressTheorems.EmbeddedHeaderVerifies` | bpf/clat.c:863-876 | the embedded IPv4 header verifies |
| `IngressTheorems.PlainPatchExact` | bpf/clat.c:961-973 | the embedded checksum is in the right class if and only if the plain 32-bit addition does not wrap |
| `IngressTheorems.WrapPossibleExactly` | bpf/clat.c:949 | some answer of the difference helper wraps the addition if and only if the checksum is below the representative of the difference |
| `Existence.EmbeddedChecksumExact` | bpf/clat.c:920-973 | over all translations of an accepted error the embedded checksum is right if and only if the quoted one is not below the representative of the difference |
| `Existence.EgressHasTranslation` | bpf/clat.c:312-535 | the verdict is to translate if and only if there is a complete translation, in every checksum mode |
| `Existence.IngressHasTranslation` | bpf/clat.c:613-988 | the same on the way in, errors included |
| `IngressTheorems.FoldedDiffNeverWraps` | bpf/clat.c:949 | any difference up to 0xffff0000 gives the right class |
| `RoundTrip.ReplyAccepted` | internal/clat/bpf_test.go:586-616 | the mirrored packet, completed or not, is translated if and only if the frame has 62 bytes, and passes untouched otherwise |
| `RoundTrip.ReplyRefused` | bpf/clat.c:699-700 | a protocol number that is an extension header in IPv6 goes out and its reply is dropped |
| `RoundTrip.RoundTripProtocol` | bpf/clat.c:384-395 | of all packets that go out and come back, without condition, the protocol returns if and only if it is reversible |
| `RoundTrip.RoundTripHeader` | internal/clat/bpf_test.go:586-616 | out and back gives the sent header with addresses swapped and options gone: TOS, TTL, protocol and length return, and it verifies |
| `RoundTrip.RoundTripFragment` | bpf/clat.c:682-697 | identification, offset and MF return for fragments; otherwise DF is set and the identification is 0 |
| `RoundTrip.RoundTripTransport` | bpf/clat.c:741-768 | TCP and UDP return byte for byte, up to the representative of the checksum: complete, partial and completed on the way, or partial throughout; UDP sent without a checksum returns with the one it should have had |
| `RoundTrip.RoundTripIsIdentity` | bpf/clat.c:425-452 | what the pod meant to send returns exactly if and only if its UDP checksum was not 0 or its TCP checksum not 0xffff; a checksum partial throughout returns exactly unless 0 |
| `RoundTrip.RoundTripEcho` | bpf/clat.c:779-797 | echoes return with type, identifier, sequence and payload, and the checksum in its class, in every mode |
| `RoundTrip.RoundTripOther` | bpf/clat.c:526-530 | other protocols and later fragments return unchanged |
| `Reassembly.AnyOrderDelivers` | internal/clat/bpf_test.go:186-217 | the pieces of a datagram, in any order and repeated, are found at their offsets |
| `Reassembly.SplitReassembles` | internal/clat/bpf_test.go:186-217 | every way of cutting a datagram reassembles to it |
| `Reassembly.ReassembleCommutes` | internal/clat/bpf_test.go:209-216 | patching the first fragment and reassembling commute, missing or ill-formed fragments included |
| `Reassembly.EgressFragment` | bpf/clat.c:404-415 | each translated fragment keeps offset, MF, identification and bytes, and only the first changes its checksum field, to a value all share |
| `Reassembly.EgressCommutesWithReassembly` | bpf/clat.c:365-440 | for any received fragments of one datagram both reassemblies fail or both succeed and differ in the field only |
| `Reassembly.EgressReassembledVerdict` | internal/clat/bpf_test.go:209-216 | the reassembled datagram verifies over IPv6 if and only if it did over IPv4 |
| `Reassembly.EgressSplitSurvives` | internal/clat/bpf_test.go:186-217 | cut anywhere, translated piecewise, received in any order: the datagram is there with the same verdict and at most its checksum field changed |
| `Reassembly.IngressFragment` | bpf/clat.c:682-697 | each fragment keeps offset, MF, low identification bits and bytes, and only the first changes its checksum field |
| `Reassembly.IngressCommutesWithReassembly` | bpf/clat.c:682-768 | for any received fragments of one datagram both reassemblies fail or both succeed and differ in the field only |
| `Reassembly.IngressReassembledVerdict` | bpf/clat.c:738-768 | the reassembled datagram verifies over IPv4 if and only if it did over IPv6 |
| `Reassembly.IngressSplitSurvives` | bpf/clat.c:682-768 | the same end-to-end statement on the way in |
| `Quoting.ErrorAccepted` | bpf/clat.c:646-674 | the verdict on every error that quotes the headers of the pod's translated packet, whoever sent it: translated exactly for type 1, 2, 3, type 4 code 1, and type 4 code 0 with pointer 0, 4, 6, 7, 8 or 24, if a quoted echo is quoted four octets far; else which counter, or left to the stack |
| `Quoting.QuotedHeaderReturns` | bpf/clat.c:863-876 | the embedded header is byte for byte the header the pod sent without options, at the router's hop limit |
| `Quoting.QuotedProtocol` | bpf/clat.c:826-842 | of all errors about the pod's packets that come back, the embedded protocol is the pod's if and only if it is reversible |
| `Quoting.QuotedTransportReturns` | bpf/clat.c:961-973 | quoted TCP and UDP bytes, whether they left with a partial checksum or not, are what the pod meant to send, with the checksum in its class if and only if the addition did not wrap, which the packet can rule out; a checksum seen as 0 stays 0 |
| `Quoting.QuotedEchoReturns` | bpf/clat.c:920-960 | a quoted echo is the pod's own message, with the checksum in its class if and only if the addition did not wrap, which the packet can rule out |
| `Quoting.QuotedChecksumReturnsExactly` | bpf/clat.c:920-973 | from every accepted error that quotes it, whatever the helpers answer, a checksum returns in its class if and only if the one the router saw is not below the representative of the difference, or, for TCP seen as 0, the difference is zero |
| `Quoting.QuotedBytesReturn` | bpf/clat.c:908-974 | however far the router quoted and whatever was refused, every quoted byte but checksum and echo type is the pod's own, in order; later fragments return whole |
| `Pmtu.EgressSize` | bpf/clat.c:386-395 | the size of a translated packet as used by the convergence argument is the program's |
| `Pmtu.TooBigReports` | bpf/clat.c:848-856 | Packet Too Big about a pod's packet arrives as Fragmentation Needed with the translated MTU |
| `Pmtu.EventLowers` | bpf/clat.c:848-856 | every translated Packet Too Big strictly lowers the pod's estimate |
| `Pmtu.PmtuConverges` | bpf/clat.c:848-856 | for any path MTU of at least 1280 and any start at most two occur, and after two, or one for a fragment, everything within the estimate fits |
| `Pmtu.PmtuConvergesOnFrames` | bpf/clat.c:848-856 | the same for frames sent, seen, reported and translated back: at most two are refused, each lowers the estimate, and then every frame within it fits once translated |
| `Pmtu.TwoMessagesHappen` | internal/clat/netns.go:59-62 | two are needed: a whole packet and then a fragment |
| `Pmtu.FullFragmentExceedsLink` | internal/clat/netns.go:59-62 | a fragment as large as the route MTU allows is eight bytes too long for every link |
| `Pmtu.RouteMtuCoversLink` | internal/clat/netns.go:59-62 | whole packets within the route MTU fit the link; a fragment does if and only if it leaves eight bytes, stripped options counted |
| `Netns.NetNs.ConfigureIPv4` | internal/clat/netns.go:78-92 | exactly the steps before the failing one happen, in order |
| `Netns.NetNs.RemoveIPv4` | internal/clat/netns.go:102-117 | routes, neighbour and address go; missing pieces are no error |
| `Netns.NetNs.InspectIPv4` | internal/clat/netns.go:210-258 | foreign if and only if some address or default route is not the plugin's, else ours if and only if one is |
| `Netns.NetNs.CheckIPv4` | internal/clat/netns.go:120-181 | true if and only if address, permanent neighbour with the peer's MAC and both routes are there and no default route of the link deviates |
| `Attach.AttachPrograms` | internal/clat/attach.go:143-154 | exactly the steps before the failing one happen; filters are replaced, not stacked |
| `Attach.DetachPrograms` | internal/clat/attach.go:157-182 | the link loses its qdisc and every filter under it, other links lose nothing |
| `Attach.AttachedFilters` | internal/clat/attach.go:185-202 | for each program the last direct-action filter of its name on its hook, and nothing else |
| `Attach.CheckAttached` | internal/clat/attach.go:206-221 | true if and only if both are there with the expected tags |
| `Plugin.Decide` | internal/clat/config.go:164-197 | a CLAT if and only if there is a previous result, the namespace is not excluded and is listed if there is a list, no entry is IPv4 and some entry is IPv6; then the IPv6 entry of least index |
| `Plugin.VerdictExactly` | internal/clat/config.go:164-197 | each reason to skip, if and only if, in the fields of the call |
| `Plugin.Install` | internal/clat/plugin.go:137-171 | the new namespace and result for every failing step, rollback included |
| `Plugin.CmdAdd` | internal/clat/plugin.go:77-135 | the new namespace and result for every configuration and failing step |
| `Plugin.CmdDel` | internal/clat/plugin.go:174-212 | the new namespace, also without the interface |
| `Plugin.CmdCheck` | internal/clat/plugin.go:215-291 | the verdict on every namespace, which it does not change |
| `Lifecycle.InstallIsAllOrNothing` | internal/clat/plugin.go:137-171 | whatever step fails, the namespace is as before or complete |
| `Lifecycle.AddIsAllOrNothing` | internal/clat/plugin.go:77-135 | ADD leaves it as before or complete, complete only with success, and success without state only for a skip, foreign state or fail-open |
| `Lifecycle.AddLeavesForeignAlone` | internal/clat/plugin.go:100-116 | foreign IPv4 state survives any number of ADDs and CHECKs, legal or not, failing or not, whatever else the namespace holds |
| `Lifecycle.DelRestoresComplete` | internal/clat/plugin.go:174-212 | DEL undoes ADD exactly, although it does not know the peer's MAC |
| `Lifecycle.DelUndoesAddExactly` | internal/clat/plugin.go:174-212 | DEL after ADD restores the namespace if and only if it held no address, neighbour, route, qdisc or filter that ADD takes for its own or replaces or DEL deletes |
| `Lifecycle.DelRestoresBare` | internal/clat/plugin.go:174-212 | DEL leaves a namespace the plugin has not touched as it is |
| `Lifecycle.LifecycleSafety` | internal/clat/plugin.go:77-212 | over every legal run with failures anywhere: nothing or everything is installed, foreign state is never touched, DEL restores the start and is idempotent |
| `Lifecycle.FailingReAddLeavesFilters` | internal/clat/plugin.go:159-162 | the failing case is reached: a second ADD that fails in its first step takes the IPv4 state and leaves the filters |
| `Lifecycle.SetupIsIdempotent` | internal/clat/netns.go:76-92 | on an installed pod every prefix of the setup steps changes nothing |
| `Lifecycle.ReAddIsSafeExactly` | internal/clat/plugin.go:100-171 | a second ADD leaves everything or nothing if and only if it does not fail among the IPv4 steps (or the gateway is 0.0.0.0); one that does not fail changes nothing |
| `Commands.SkippedPodsAreLeftAlone` | internal/clat/plugin.go:85-98 | an excluded or unlisted namespace, an IPv4 entry anywhere or no IPv6 entry: ADD succeeds without touching anything, whatever would fail, and CHECK succeeds; without a previous result both fail |
| `Commands.ForeignAddressStopsAdd` | internal/clat/netns.go:217-234 | an address on a non-loopback link that is not the configured one on the pod interface keeps ADD from touching anything |
| `Commands.ForeignRouteStopsAdd` | internal/clat/netns.go:236-258 | so does a default route on another link or through another gateway |
| `Commands.ForeignExactly` | internal/clat/netns.go:191-193 | those two make the state foreign, and nothing else does |
| `Commands.NoIpv4Seen` | internal/clat/netns.go:187-188 | no address beside loopback and no default route: neither foreign nor ours |
| `Commands.ForeignSurvives` | internal/clat/plugin.go:100-116 | a namespace with such an address or route comes through every run of ADDs and CHECKs unchanged |
| `Commands.AddExactly` | internal/clat/plugin.go:118-171 | on a namespace the plugin has not touched, all pieces with their values spelt out if nothing fails, else nothing and the fail-open answer |
| `Commands.CheckRejectsWrongValues` | internal/clat/netns.go:140-172 | in any namespace a neighbour entry with the wrong hardware address or not permanent, a default route with the wrong MTU or a program with the wrong tag fails CHECK, unless nothing else of the plugin's is left under fail-open or foreign state took over |
| `Commands.CheckSeesEveryValue` | internal/clat/attach.go:206-221 | an installed pod passes CHECK if and only if hardware address, permanence, MTU and both tags are the right ones; gateway 0.0.0.0 excepted |
| `Commands.LastMatchExactly` | internal/clat/attach.go:195-199 | the filter CHECK looks at is the last BPF filter of the hook with the program's name and direct action, and there is none exactly if no filter is such |
| `Lifecycle.CheckSeesEveryPiece` | internal/clat/plugin.go:232-291 | of all 64 subsets of an installed pod's pieces CHECK accepts exactly the whole one, and the unrecognisable one under fail-open; gateway 0.0.0.0 and another route to the gateway on the pod interface excepted |
| `Lifecycle.AddCheckAgree` | internal/clat/plugin.go:232-260 | in every legal run after a successful ADD, CHECK succeeds if and only if the pod was skipped or its interface exists |
| `Lifecycle.FailOpenWithoutInterface` | internal/clat/plugin.go:125-135 | the exception is reached: fail-open without interface succeeds in ADD and fails CHECK |
| `Witnesses.ZeroReplyLeavesRight` | bpf/clat.c:494-525 | an all-zero echo reply, wrong in IPv4, is accepted and leaves right |
| `Witnesses.ZeroReplyArrivesWrong` | bpf/clat.c:786-797 | its correct ICMPv6 form is accepted and arrives wrong |
| `Witnesses.FullChecksumComesBackZero` | bpf/clat.c:436-440 | a segment with checksum 0xffff goes out and back and is not what was sent |
| `Witnesses.LongPayloadWraps` | bpf/clat.c:715-719 | a payload of 65516 bytes is accepted and its length field is wrong |
| `Witnesses.ShortReplyPasses` | bpf/clat.c:633-636 | a four-byte echo goes out and its mirror is not translated |
| `Witnesses.ZeroChecksumStays` | bpf/clat.c:961-964 | for any pod whose address difference is not zero a segment goes out with checksum 0 and is quoted back with 0, which it was not sent with |
| `Witnesses.CarryIsLost` | bpf/clat.c:961-967 | a segment goes out with checksum 1, is quoted, and some helper answer returns a checksum of another class |
| `Witnesses.ProtocolComesBackChanged` | bpf/clat.c:384 | protocol 58 goes out and comes back as ICMP |
| `Witnesses.OverrunLeaves` | bpf/clat.c:374-382 | a frame whose only option overruns its list is accepted and translated |
| `Witnesses.FragmentMissesLink` | internal/clat/netns.go:59-62 | a fragment as large as the route MTU allows is translated to eight bytes more than the link carries |
| `Witnesses.EmbeddedLengthTooShort` | bpf/clat.c:867-868 | an error quoting a fragment of length 0 is accepted and says twelve bytes |
| `Witnesses.CutErrorArrivesWrong` | bpf/clat.c:961-976 | a right error whose length ends before a quoted TCP header is accepted and arrives wrong |

## Left out

- Kernel internals behind the helpers: GSO sizing, real skb memory, `ip_summed` beyond the helper contracts, and the BPF verifier. Bytes a helper inserts are unspecified until written.
- Bounds tests the source repeats for the BPF verifier after a successful pull appear once.
- A map lookup that finds no counter cell: the keys are compile-time constants inside the array. The per-CPU array is one array.
- BIG TCP, GSO super-packets, and frames whose length field promises more than the frame holds get no checksum theorem; the programs' verdict on them is modelled.
- Quoting.QuotedEchoReturns: an ICMP message does not leave with a partial checksum; the stack does not produce any, and the relations cover the mode only.
- RoundTrip.ReplyAccepted: the mirrored packet swaps addresses but not ports; swapping ports leaves every sum as it is.
- RoundTrip.RoundTripHeader: for protocol 58 and an unfragmented packet of protocol 44, whose payload ingress reads as an ICMPv6 message or a Fragment header, only the returned protocol is stated.
- Reassembly.EgressSplitSurvives: the checksum field lies in the first fragment, as section 4.5 of RFC 8200 and the programs presuppose; overlapping fragments are resolved in favour of the first received.
- Kernel.Skb.AdjustRoom: says nothing of `csum` after an odd amount, which the programs never ask for.
- IngressTheorems.CutBeforeField: a payload length that cuts the two bytes of the embedded checksum apart, or ends within the quoted headers, is covered by the statement on all bytes only.
- RoundTrip.RoundTripTransport: a packet that leaves with a complete checksum does not return with a partial one; and a partial UDP field of zero stands for a pseudo-header sum of zero.
- Quoting.QuotedTransportReturns: a partial UDP field of zero stands for a pseudo-header sum of zero.
- ParseConfig, JSON and address parsing, logging and result printing.
- Program loading and tags: a tag is a value fixed per program. Discovery of the peer's MAC is an oracle that may fail and is otherwise stable.
- Plugin.CmdAdd: one failing step per call, which is general because the first failure ends the setup; the deletes of a rollback are taken to succeed.
- Plugin.CmdDel: its deletes are taken to succeed; the source logs and ignores their errors.
- Plugin.CmdCheck: listing and loading are taken to succeed.
- Lifecycle.LifecycleSafety: starts from a namespace without the plugin's address, neighbour entry, routes, qdisc or filters, nor any metric-0 or unrouted host route to the gateway; `Lifecycle.DelUndoesAddExactly` proves that DEL loses such state. Runs repeat no successful ADD without a DEL.
- Attach.AttachedFilters: listing filters without a qdisc yields none.
- Route protocol, scope and tables other than the main one, and address flags and labels.
- The command-line tool, the counters subcommand beyond the names it prints, and the installer.
