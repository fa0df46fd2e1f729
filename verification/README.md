# Two eBPF publish/subscribe brokers, their reference broker and their benchmark

This project models, in Dafny, the publish path and the control path of the
two eBPF brokers (`bpf_broker`, XDP fast path plus TC fan-out; `bpf_broker_xdp`,
one clone per subscriber), the plain Rust broker that does the same job with a
map of sets (`mqttsn-udp-sr`), and the message codec, latency accounting and
rate search of `pubsub-benchmark`. `dafny verify dfyconfig.toml` checks all of it.

Code that works in place is modelled in place: packets are byte arrays patched
store by store, the BPF maps are fields of classes, the daemons' buffers are
arrays, and every loop of the sources is a loop here. Each such method is
proved equal to a specification function, and the properties are lemmas about
those functions, over all packets, all command runs and all interleavings.

## How the files fit together

- `Protocol`, `Words`, `Division`, `Checksum`, `Frame`: the command words,
  little-endian memory, the Internet checksum (RFC 1071, RFC 1624) as arithmetic
  modulo 65535, and the Ethernet/IPv4/UDP frame with the bytes each checksum
  covers and what a receiver accepts (RFC 791, RFC 768).
- `Forwarding`, `PacketOps`, `Limits`: incremental patching against full
  recomputation, as functions and as in-place code, and three real frames on
  which one or the other is wrong.
- `TopicKey`: the topic key cut by the kernel and the one cut by the daemon.
- `Maps`, `Kernel`, `Daemon`, `Refinement`, `FastPathRace`: `bpf_broker`.
- `CloneBroker`, `CloneRace`: `bpf_broker_xdp`.
- `DaemonMain`: the receive loop the two daemons share.
- `Utf8`, `ReferenceBroker`: the Rust broker, from bytes to text and back.
- `Equivalence`, `Delivery`, `MixedRuns`, `OneRun`: who is subscribed in the three
  brokers, what one PUBLISH delivers in each, whole runs of both, and one of them
  computed.
- `Decimal`, `Message`, `Publishing`, `Aggregation`, `Trial`, `Ndr`: the benchmark,
  and how the brokers read its messages.
- `Enumeration`: iteration over a set in any order.

## Main results

1. **Fast path refines general path** (`Refinement.FastPathRefines`,
   `Refinement.Receive`). In every state a run of REGISTER, SUBSCRIBE and FLUSH
   reaches, the XDP program takes a PUBLISH over exactly when the topic has one
   accepted subscription since its last flush; the cached address is then the
   whole subscriber set; its missing-entry drop is unreachable; and its frame
   is byte for byte the TC path's frame if and only if the incoming IP sum and
   the UDP sum the program computes are multiples of 65535. No exception for
   all-ones checksum words is needed, because neither path ever leaves one
   behind, not even where RFC 768 asks for it (result 3).
2. **Fan-out** (`Kernel.KernelPrograms.FanOut`, `Forwarding.ReaddressForgets`).
   Although the callback patches one packet again and again, every copy is a
   function of the original frame and its subscriber alone, for any iteration
   order, one per member.
3. **What a subscriber accepts** (`Forwarding.SlowFrameDelivers`,
   `Forwarding.FastFrameDelivers`, `Forwarding.FastCheckZeroIff`). A recomputed
   copy's sum verifies if and only if the loop's omissions are harmless, a
   condition on the frame that holds for every even UDP length within the
   loop's reach. RFC 768 has a computed zero sent as all ones; both XDP programs
   store the zero, which tells the receiver that there is no checksum. So a copy
   is accepted if and only if the tail is harmless or the field comes out as
   zero, and when that happens is proved as a condition on frame and subscriber.
   The patching path has the mirror image: it invents a checksum for a frame that
   came without one. `Limits` gives a frame for each failure, with the exact set
   of subscribers that are served all the same.
4. **Cache invariant over all runs** (`Daemon.MapsSummariseHistory`) and what is
   left of it when the 32-bit counter wraps (`Daemon.AfterWrap`).
5. **Races**, with exact conditions. In `bpf_broker`, whose fan-out iterates
   while the daemon writes, a fast-path send always fits a moment between its
   two reads, a drop if and only if a flush overlapped it, and a fan-out if and
   only if what it reached fits a history it lived through
   (`FastPathRace.LinearizesIff`, `RunLinearizesIff`). Without a flush in between,
   every subscriber whose SUBSCRIBE was complete at the start is reached on
   either path; traces show each way of failing. In `bpf_broker_xdp` a PUBLISH
   linearizes at its count read whatever SUBSCRIBEs interleave, and for every
   single clone read, under flushes too, it is decided when it gets the right
   subscriber (`CloneRace.CloneReadIff`). The steps of both systems,
   uninterrupted, are proved to be the daemons' commands, the fan-out loop and
   the clone program, and what a run records about a publication is proved to be
   what held at its own moments (`FastPathRace.RecordIsMoments`,
   `CloneRace.PublicationIsMoment`).
6. **Three brokers, one behaviour** (`MixedRuns.ServeAll`). Over any legal run of
   commands and publications, served by the modelled programs side by side, every
   PUBLISH reaches in the XDP+TC broker exactly the reference broker's
   subscribers of that moment, once each, and in the clone broker exactly if
   nobody subscribed twice; the clone counters are the sums of those sets' sizes
   modulo their widths, the Rust broker's over the publications that reach it
   with some text (`MixedRuns.TotalsAgreeIff`). If anyone is subscribed, all three deliver the same bytes if and only if the
   datagram reaches the Rust broker's socket as well-formed UTF-8 without
   surrounding whitespace and within its buffer (`Delivery.ThreeBrokersAgreeIff`,
   `ReferenceBroker.TrimmedUnchangedIff`).
7. **Benchmark**: codec and message round trips, messages that all three brokers
   read as the publisher meant them, sharding-independent latency accounting with
   full tables included, the report of a whole measurement in bytes (`Trial.Measure`), and
   the bound of the binary search.

## Where the code and its comments differ

The model follows the code.

- The inner hash map is declared with 2048 entries
  (bpf_broker/bpf_broker_kern.c:84-89) but created with 256
  (bpf_broker/bpf_broker_proto.c:194-199).
- `topic_sub_cnt` counts accepted SUBSCRIBE messages, repeats included, not
  subscribers; the XDP test is `!= 1`, while the daemon's comment at
  bpf_broker/bpf_broker_proto.c:164 speaks of a test for 0.
- The comment at bpf_broker/bpf_broker_kern.c:161 says the last odd byte is
  padded; on a little-endian host it is added in the wrong half of its word,
  and after the loop has already read it when another byte follows it.
- The comment at bpf_broker/bpf_broker_proto.c:300 says trailing blanks are
  trimmed; only line ends are.
- mqttsn-udp-sr/README.md describes PUBACK, ERROR and topic numbers in the
  replies; `handle_message` sends none of them.

## Model

| member | source | states |
|---|---|---|
| Protocol.Spelling | mqttsn-udp-sr/src/main.rs:121-154 | the seven command and reply words, letter by letter |
| Words.SwapIsNetworkOrder | bpf_broker/bpf_broker_proto.c:338-339 | `ntohs` of the word stored in memory is its big-endian value |
| Checksum.OnesSumCong | bpf_broker/bpf_broker_kern.c:119-128 | for every buffer, the big-endian one's-complement sum is 256 times the host-order sum modulo 65535, and zero only with it |
| Checksum.AcceptsIff | bpf_broker/bpf_broker_kern.c:116-132 | RFC 1071: a receiver's sum is all ones iff the host-order sum is a positive multiple of 65535 |
| Checksum.FinishCong | bpf_broker/bpf_broker_kern.c:127-131 | two folds suffice for any 32-bit accumulator; the stored word completes the sum to a multiple of 65535 and is 0xFFFF only for a zero sum |
| Checksum.ByteOrderIndependence | bpf_broker/bpf_broker_kern.c:116-132 | RFC 1071 section 2(B): the host-order computation leaves the same two bytes in memory as the big-endian definition |
| Checksum.RecomputeAccepts | bpf_broker/bpf_broker_kern.c:425-426 | zeroing the field, summing and storing makes the receiver accept |
| Checksum.Eqn3Cong | bpf_broker/bpf_broker_kern.c:326-327 | RFC 1624 Eqn. 3 keeps checksum plus field modulo 65535; it yields 0xFFFF only from all-ones inputs replaced by zero |
| Checksum.Eqn3WideCong | bpf_broker/bpf_broker_kern.c:311-319 | the same for the four-byte replacement |
| Frame.ValidIff | bpf_broker/bpf_broker_kern.c:116-176 | both sums verify iff the two host-order sums (header; pseudo-header and segment) are multiples of 65535; a receiver accepts iff version and total length are in order, the first is and either the second is or the UDP field is zero |
| Frame.UnpackPack | bpf_broker/bpf_broker_kern.c:289-295 | the kernel recovers address and port from the packed key |
| Frame.BareSumOfCopy | bpf_broker/bpf_broker_kern.c:416-432 | the UDP sum of the copy for a subscriber, check field apart, read off the incoming frame and the subscriber's address |
| Frame.RewrittenDetermines | bpf_broker/bpf_broker_kern.c:416-432 | a forwarded copy is determined by frame and subscriber up to its two checksum fields |
| Forwarding.TurnRoundEffect | bpf_broker/bpf_broker_kern.c:485-514 | MACs swapped, source set to the old destination, all else kept, both sums kept modulo 65535, and no later patch can leave an all-ones word |
| Forwarding.ReaddressEffect | bpf_broker/bpf_broker_kern.c:306-328 | from any frame, the callback sets destination address and port, keeps every other byte and both residues |
| Forwarding.ReaddressForgets | bpf_broker/bpf_broker_kern.c:285-353 | what the previous subscriber left behind does not matter, byte for byte |
| Forwarding.SlowFrameDelivers | bpf_broker/bpf_broker_kern.c:485-524 | a patched copy is accepted iff the incoming IP header was in order and verified and either the incoming UDP sum did or the patched field is zero, with the exact condition for the latter |
| Forwarding.SlowCheckZeroIff | bpf_broker/bpf_broker_kern.c:318-327 | a patched copy leaves with a zero UDP field iff the incoming sum is congruent to the copy's sum without its check field |
| Forwarding.HostUdpSumBound | bpf_broker/bpf_broker_kern.c:134-172 | the 32-bit accumulator never overflows and is never zero |
| Forwarding.HostSumIsRight | bpf_broker/bpf_broker_kern.c:134-168 | the recomputed UDP sum is right modulo 65535 iff the tail is harmless, which every even length within the loop guarantees |
| Forwarding.FastFrameEffect | bpf_broker/bpf_broker_kern.c:416-432 | the recomputed copy is turned round and addressed, its sums vanish modulo 65535 as the program takes them, no all-ones word |
| Forwarding.FastCheckZeroIff | bpf_broker/bpf_broker_kern.c:431-432 | a recomputed copy leaves with a zero UDP field iff its sum, as the program takes it, is a multiple of 65535, and never with the all-ones word RFC 768 prescribes there |
| Forwarding.FastFrameDelivers | bpf_broker/bpf_broker_kern.c:416-432 | its IP header sum always verifies, its UDP sum iff the tail is harmless; it is accepted iff the IP header was in order and the tail is harmless or the field is zero |
| Forwarding.FastEqualsSlowIff | bpf_broker/bpf_broker_kern.c:416-432 | recomputed copy equals patched copy, byte for byte, iff both incoming sums vanish modulo 65535 |
| Forwarding.FastEqualsSlowOnValid | bpf_broker/bpf_broker_kern.c:416-432 | for frames whose sums verify: iff the tail is harmless |
| Limits.OddFrameIsValid | bpf_broker/bpf_broker_kern.c:161-168 | "PUBLISH t odd bytes": 27 bytes of UDP in a 61-byte frame, sums verifying |
| Limits.OddLengthMisdelivered | bpf_broker/bpf_broker_kern.c:161-168 | delivered by the TC path; the recomputed copies' sums never verify, and they are accepted iff subscriber address and port complete a stated sum to a multiple of 65535 |
| Limits.OddLengthExamples | bpf_broker/bpf_broker_kern.c:161-168 | one subscriber who gets a zero field and accepts, one who refuses |
| Limits.LongFrameIsValid | bpf_broker/bpf_broker_kern.c:149-159 | a PUBLISH with 260 bytes of UDP, sums verifying |
| Limits.LongDatagramMisdelivered | bpf_broker/bpf_broker_kern.c:149-159 | delivered by the TC path and the clone broker; the 128-word fast path's sum never verifies, and its copy is accepted iff the subscriber completes a stated sum |
| Limits.UncheckedFrameIsAccepted | bpf_broker/bpf_broker_kern.c:318-327 | a PUBLISH sent without UDP checksum, acceptable to any receiver |
| Limits.UncheckedFrameMisdelivered | bpf_broker/bpf_broker_kern.c:318-327 | both recomputing programs deliver it; the TC path's copy is refused except by the subscribers for whom the patched field is zero again |
| TopicKey.ExtractTopicId | bpf_broker/bpf_broker_kern.c:231-246 | the loop computes the kernel's key, or fails exactly for a short frame without delimiter |
| TopicKey.ReadTopic | bpf_broker/bpf_broker_proto.c:295-310 | bounded copy and trim compute the daemon's key, or fail exactly for 20 bytes and more |
| TopicKey.PadInjective | bpf_broker/bpf_broker_proto.c:66-72 | zero-padding keeps NUL-free topics apart |
| TopicKey.KeysAgreeIff | bpf_broker/bpf_broker_kern.c:231-246 | for every topic text, kernel key and daemon key agree iff the text up to its first NUL or line end is short, blank-free and not ended early by a carriage return |
| TopicKey.PlainKeysAgree | bpf_broker/bpf_broker_proto.c:294-310 | plain topics agree, with or without a line end |
| TopicKey.PlainKeysDistinct | bpf_broker/bpf_broker_proto.c:66-72 | distinct plain topics have distinct keys |
| TopicKey.LongTopicMisrouted | bpf_broker/bpf_broker_kern.c:244-245 | a 20-byte topic cannot be registered, yet a PUBLISH to it goes to the topic of its first 19 bytes |
| PacketOps.SwapMacsInPlace | bpf_broker/bpf_broker_kern.c:485-488 | exchanges the two MAC addresses, nothing else |
| PacketOps.CsumReplace2 | bpf_broker/bpf_broker_kern.c:326-327 | assumption about a kernel helper: the two-byte replacement stores RFC 1624 Eqn. 3 of the stored word |
| PacketOps.CsumReplace4 | bpf_broker/bpf_broker_kern.c:311-319 | assumption about a kernel helper: the four-byte replacement stores Eqn. 3 for both halves |
| PacketOps.PatchAddressInPlace | bpf_broker/bpf_broker_kern.c:306-320 | address store and both replacements, as one function of the old packet |
| PacketOps.PatchPortInPlace | bpf_broker/bpf_broker_kern.c:325-328 | port store and its replacement |
| PacketOps.ComputeIpChecksum | bpf_broker/bpf_broker_kern.c:116-132 | the loop sums the header without overflow and finishes it |
| PacketOps.ComputeUdpChecksum | bpf_broker/bpf_broker_kern.c:134-176 | the loop, its three exits and the odd tail compute the host sum without overflow |
| PacketOps.PseudoHeader | bpf_broker/bpf_broker_kern.c:139-145 | the six pseudo-header words are the sum over addresses, protocol and length |
| PacketOps.StartsWithPublish | bpf_broker/bpf_broker_kern.c:222-229 | true iff the payload begins with "PUBLISH " |
| PacketOps.PublishKeyIs | bpf_broker/bpf_broker_kern.c:373-392 | for every frame: it publishes to a key iff its bytes are IPv4, UDP, a first port byte 192 with a second of at most 15, and a payload starting with the eight bytes of "PUBLISH "; the key is then the topic cut from byte 50 |
| PacketOps.PublishesToKey | bpf_broker/bpf_broker_kern.c:462-468 | a frame spelling "PUBLISH topic " for a plain topic has the padded topic as its key on ports 49152 to 49167, and none on any other port |
| Kernel.KernelPrograms.CallbackFn | bpf_broker/bpf_broker_kern.c:285-353 | patches the packet for one subscriber, emits a snapshot, counts it (helpers succeed) |
| Kernel.KernelPrograms.TurnRoundInPlace | bpf_broker/bpf_broker_kern.c:485-514 | the once-per-PUBLISH part |
| Kernel.KernelPrograms.FanOut | bpf_broker/bpf_broker_kern.c:518-524 | any iteration order: one frame per subscriber, each depending on original frame and subscriber only, the counter raised by their number |
| Kernel.NextVisit | bpf_broker/bpf_broker_kern.c:285-331 | after any visits, readdressing the packet gives the copy readdressing the original would |
| Kernel.DecideOnPorts | bpf_broker/bpf_broker_kern.c:373-407 | on those ports such a frame is decided by the count and first subscriber of its topic; on every other it goes to the stack |
| Kernel.KernelPrograms.TcIngressBroker | bpf_broker/bpf_broker_kern.c:443-551 | consumes exactly the PUBLISHes to registered topics, with their copies, which for frames spelling a plain topic means: on each of the sixteen ports and on no other; otherwise leaves packet, wire and clone counter alone (helpers succeed) |
| Kernel.KernelPrograms.XdpBroker | bpf_broker/bpf_broker_kern.c:356-440 | pass, drop or one recomputed copy, as the two cached maps decide; counters in each case |
| Kernel.RewriteInPlace | bpf_broker/bpf_broker_kern.c:416-432 | the in-place rewrite of both XDP programs is the recomputed copy |
| Daemon.DaemonProcess.AddTopicToMaps | bpf_broker/bpf_broker_proto.c:173-225 | new whole state, also when the inner map cannot be made; success iff the topic is registered afterwards |
| Daemon.DaemonProcess.AddSubscriberToMaps | bpf_broker/bpf_broker_proto.c:65-131 | new whole state, including every early return after a failed update; success iff every map write succeeded |
| Daemon.DaemonProcess.FlushTopicInMaps | bpf_broker/bpf_broker_proto.c:134-171 | the delete loop terminates with an empty set after exactly as many deletions as there were members; count and first entry reset |
| Daemon.SwapTwice | bpf_broker/bpf_broker_proto.c:87 | address and port survive the conversion to host order and back |
| Daemon.RoomForRegistered | bpf_broker/bpf_broker_kern.c:94-114 | once the outer map has the topic, the two side maps cannot be full for it |
| Daemon.StepKeepsFit | bpf_broker/bpf_broker_proto.c:65-225 | every command keeps the side maps' keys among the registered topics |
| Daemon.SubscribeWrites | bpf_broker/bpf_broker_proto.c:95-122 | in a state with registered side-map keys, an accepted SUBSCRIBE completes all its map writes |
| Daemon.MapsSummariseHistory | bpf_broker/bpf_broker_proto.c:65-225 | over every run: set, count and first entry of each topic are the members, length modulo 2^32 and single element of its accepted subscriptions since the last flush |
| Daemon.CacheIsSound | bpf_broker/bpf_broker_proto.c:95-122 | count zero iff no subscriber, count at least the set's size, count 1 implies the set is exactly the cached address |
| Daemon.AfterWrap | bpf_broker/bpf_broker_proto.c:102-122 | if a wrapped counter reads 1, the cached address is the whole set iff all subscriptions were from it |
| Daemon.WrappedCounterMisses | bpf_broker/bpf_broker_proto.c:102-122 | after 2^32 SUBSCRIBEs of one subscriber and one of another the count reads 1 and the cached address is the second, while both are subscribed |
| DaemonMain.HasPrefix | bpf_broker/bpf_broker_proto.c:294 | the bounded comparison on a NUL-terminated buffer is a prefix test |
| DaemonMain.ReadKey | bpf_broker/bpf_broker_proto.c:295-310 | the topic part of the datagram as a key, or failure |
| DaemonMain.ReceiveInto | bpf_broker/bpf_broker_proto.c:285-292 | the receive buffer: at most 1023 bytes, NUL-terminated |
| DaemonMain.HandleDatagram | bpf_broker/bpf_broker_proto.c:284-369 | one datagram, cut to 1023 bytes, applies exactly the command it spells and is answered as `DaemonMain.CommandIs` and `DaemonMain.NoCommand` spell out: REGACK with the topic iff it is registered afterwards, SUBACK and FLUSHED always |
| DaemonMain.HandleDatagramXdp | bpf_broker_xdp/bpf_broker_proto.c:197-273 | the same for the clone broker's daemon |
| DaemonMain.CommandIs | bpf_broker/bpf_broker_proto.c:294-367 | for every topic text and whatever follows it: what is done and what is answered by REGISTER (REGACK with the topic iff it is registered afterwards, else nothing), SUBSCRIBE (SUBACK also when refused) and FLUSH (always FLUSHED); topics of 20 bytes and more change nothing |
| DaemonMain.NoCommand | bpf_broker/bpf_broker_proto.c:294-367 | any datagram beginning with none of the three words changes no map and gets no answer |
| DaemonMain.RegisteredAfterIff | bpf_broker/bpf_broker_proto.c:173-225 | in any state of either broker: registered after REGISTER iff it was before or fewer than ten topics were |
| DaemonMain.SubscribeTakenIff | bpf_broker/bpf_broker_proto.c:74-107 | in any state: a SUBSCRIBE puts its sender into the set iff the topic is registered and the sender is in it or fewer than 256 are; the clone broker takes it iff the topic is registered, one of 2048 slots is left and its count can be kept |
| DaemonMain.CutLosesNothing | bpf_broker/bpf_broker_proto.c:285-292 | for every datagram of any length, what the receive buffer cuts off changes neither the command nor the answer |
| DaemonMain.PackHostOfSender | bpf_broker/bpf_broker_proto.c:338-339 | the stored key is the packed socket address of the sender |
| Refinement.FastPathRefines | bpf_broker/bpf_broker_kern.c:396-414 | in every reachable state: taken over iff one accepted subscription, never dropped, the only subscriber, byte-equal to the general path iff the incoming sums verify |
| Refinement.CopiesRewritten | bpf_broker/bpf_broker_kern.c:485-524 | every fan-out copy is the original turned round and addressed to its subscriber |
| Refinement.Receive | bpf_broker/bpf_broker_kern.c:356-551 | XDP then TC on one frame: one copy per subscriber of a registered topic, which for a frame spelling a plain topic means on each of the sixteen ports and on no other; untouched otherwise; the clone counter conserves frames sent modulo 2^32, the publish counter counts the slow path twice |
| Refinement.BothPathsDeliver | bpf_broker/bpf_broker_kern.c:356-551 | an accepted frame's patched copy is accepted iff the UDP sum verified or its field is zero, the recomputed one iff the tail is harmless or its field is zero; with verifying sums they are equal iff the tail is harmless, as for even lengths up to 256 |
| FastPathRace.DaemonStep | bpf_broker/bpf_broker_proto.c:95-122 | each single map write keeps the relation between set, count, first entry and accepted subscriptions |
| FastPathRace.ReadersStep | bpf_broker/bpf_broker_kern.c:396-409 | each step keeps what every publication between its two reads relies on |
| FastPathRace.Invariant | bpf_broker/bpf_broker_proto.c:95-167 | both hold in every interleaving |
| FastPathRace.SendsToSubscriber | bpf_broker/bpf_broker_kern.c:396-414 | at the second read the address is in the set, or a flush that began with it is in progress |
| FastPathRace.SendLinearizes | bpf_broker/bpf_broker_kern.c:396-414 | a fast-path send is what a sequential broker would have sent at a moment between the two reads |
| FastPathRace.DropLinearizesIff | bpf_broker/bpf_broker_kern.c:403-407 | the missing first entry fits a moment since the count read iff a flush overlapped; otherwise the daemon is between its count write and first-entry write |
| FastPathRace.DropInWindow | bpf_broker/bpf_broker_proto.c:109-117 | a four-step trace in which that window loses a publish |
| FastPathRace.CompletedAreReached | bpf_broker/bpf_broker_kern.c:396-404 | a PUBLISH no flush overlaps reaches, by whichever path, every subscriber whose SUBSCRIBE was complete at its count read; whoever any fan-out reaches was in a set in force meanwhile or was being inserted |
| FastPathRace.RecordIsMoments | bpf_broker/bpf_broker_kern.c:396-524 | for every publication of every run, what is recorded about it is what happened: its views are the subscriber sets in force at the moments it was open, it is calm iff no flush ran at any of them, touched are the subscribers being inserted at them, and done, read off at its count read, are all subscribers between commands and all but the one under way otherwise |
| FastPathRace.LinearizesIff | bpf_broker/bpf_broker_kern.c:396-524 | for every interleaving, writes in the middle of the iteration included: a fast-path send fits a moment always, a drop iff a flush overlapped, a fan-out iff what it reached fits one of the histories it lived through (reached in order of acceptance) |
| FastPathRace.RunLinearizesIff | bpf_broker/bpf_broker_kern.c:396-524 | all finished publications of a run fit a moment iff none is a calm drop or an out-of-order fan-out |
| FastPathRace.WholeSetInForceIff | bpf_broker/bpf_broker_kern.c:518-524 | the inner map as a whole is a set that was in force iff no SUBSCRIBE of someone new has inserted without having counted |
| FastPathRace.WalkOutOfOrder | bpf_broker/bpf_broker_kern.c:518-524 | a fan-out that meets two SUBSCRIBEs misses the earlier, complete one and reaches the later: no moment fits |
| FastPathRace.PathsDisagree | bpf_broker/bpf_broker_proto.c:95-109 | the combined broker does not linearize: a PUBLISH reaches a subscriber that a later one, begun after it ended, does not |
| FastPathRace.SubscribeSteps | bpf_broker/bpf_broker_proto.c:95-122 | uninterrupted, the subscribe steps are the daemon's command |
| FastPathRace.FlushSteps | bpf_broker/bpf_broker_proto.c:155-167 | so are the flush steps, deleting in any order |
| FastPathRace.PublishSteps | bpf_broker/bpf_broker_kern.c:396-407 | and the two reads are the XDP program's decision |
| FastPathRace.WalkSteps | bpf_broker/bpf_broker_kern.c:518-524 | uninterrupted, the iteration steps reach the inner map once each, in any order, as the fan-out loop does |
| CloneBroker.CloneMaps.AddTopicToMaps | bpf_broker_xdp/bpf_broker_proto.c:115-154 | new whole state, array zeroed, also when the inner array cannot be made; success iff registered afterwards |
| CloneBroker.CloneMaps.AddSubscriberToMaps | bpf_broker_xdp/bpf_broker_proto.c:19-67 | slot at the count, then the count; nothing at 2048; success iff both writes succeeded |
| CloneBroker.CloneMaps.FlushTopicInMaps | bpf_broker_xdp/bpf_broker_proto.c:70-112 | the loop zeroes exactly the slots below the count and resets it |
| CloneBroker.SubscribeAppends | bpf_broker_xdp/bpf_broker_proto.c:40-58 | a subscription appends to the array's history |
| CloneBroker.FlushClears | bpf_broker_xdp/bpf_broker_proto.c:79-108 | a flush empties it |
| CloneBroker.ArrayHoldsHistory | bpf_broker_xdp/bpf_broker_proto.c:19-154 | over every run: count at most 2048, slots below it the subscriptions in order with repeats, zeros above |
| CloneBroker.CloneTxDecodes | bpf_broker_xdp/bpf_broker_kern.c:17-18 | number of copies and action are recovered from the return code |
| CloneBroker.CloneKernel.XdpOriginal | bpf_broker_xdp/bpf_broker_kern.c:255-288 | asks for exactly count clones on each of the sixteen ports and on no other, or passes |
| CloneBroker.CloneKernel.XdpClone | bpf_broker_xdp/bpf_broker_kern.c:183-253 | clone k becomes the copy for slot k-1, or is dropped in exactly the stated cases, any other port among them |
| CloneBroker.CloneKernel.RunClones | bpf_broker_xdp/bpf_broker_kern.c:183-253 | clones 1 to n of one frame: one transmitted copy per slot, in order, none dropped |
| CloneBroker.CloneKernel.Publish | bpf_broker_xdp/bpf_broker_kern.c:171-288 | in a reachable state a PUBLISH transmits one clone per history entry, in order, none dropped |
| CloneBroker.ClonesDeliver | bpf_broker_xdp/bpf_broker_kern.c:242-250 | each clone is accepted iff the longer loop's tail is harmless or its UDP field is zero; even lengths up to 2048 are always harmless |
| CloneRace.DaemonStep | bpf_broker_xdp/bpf_broker_proto.c:40-58 | each single write keeps array, count and history related |
| CloneRace.PubsStep | bpf_broker_xdp/bpf_broker_kern.c:217-230 | each step keeps every publication's snapshot and clones right |
| CloneRace.Invariant | bpf_broker_xdp/bpf_broker_kern.c:217-287 | both hold in every interleaving, flushes included |
| CloneRace.PublishLinearizes | bpf_broker_xdp/bpf_broker_kern.c:217-287 | no flush in between: the clones read exactly the history as of the count read, one each |
| CloneRace.ReadCountRecords | bpf_broker_xdp/bpf_broker_kern.c:281-287 | a count read in any state: no publication for a zero count, otherwise one of exactly count clones for exactly the daemon's history |
| CloneRace.PublicationIsMoment | bpf_broker_xdp/bpf_broker_kern.c:217-287 | for every publication of every run, flushes included, there is a count read such that its number of clones and its snapshot are the daemon's count and history at that moment, and every clone it sent went to what its slot held when it was read |
| CloneRace.CloneReadIff | bpf_broker_xdp/bpf_broker_kern.c:217-230 | for every clone read of every run, flushes included: the clone gets the subscriber it stands for always before its own flush, during it iff the flush has not come to the slot (or that subscriber is address zero), afterwards iff the slot holds the same subscriber again |
| CloneRace.SlotsBelowCountAreWritten | bpf_broker_xdp/bpf_broker_proto.c:40-58 | no clone reads an unwritten slot |
| CloneRace.FlushBreaksPublish | bpf_broker_xdp/bpf_broker_proto.c:99-108 | a six-step trace in which a flush sends a clone to address zero |
| CloneRace.SubscribeSteps | bpf_broker_xdp/bpf_broker_proto.c:40-58 | uninterrupted, the subscribe steps are the daemon's command |
| CloneRace.FlushSteps | bpf_broker_xdp/bpf_broker_proto.c:99-108 | so are the flush steps; flushing an empty topic is no step |
| CloneRace.PublishSteps | bpf_broker_xdp/bpf_broker_kern.c:217-287 | so are a publication's: from any state between commands with a subscription counted, a count read and the slot reads 1 to count give exactly the entries the clone program serves |
| Utf8.EncodeOfDecodeIff | mqttsn-udp-sr/src/main.rs:58 | decoding with replacement and encoding again is the identity iff the bytes are well-formed UTF-8 |
| Utf8.DecodeOfEncode | mqttsn-udp-sr/src/main.rs:58 | encoding then decoding is the identity on all text |
| Utf8.CutRestoredIff | mqttsn-udp-sr/src/main.rs:53-58 | a well-formed datagram cut by the buffer comes back whole iff nothing was cut or the cut went through a final U+FFFD |
| Utf8.PieceIsMaximal | mqttsn-udp-sr/src/main.rs:58 | an ill-formed piece is one byte or the beginning of some encoding, and with the next byte the beginning of none (The Unicode Standard, section 3.9, maximal subpart) |
| Utf8.WellFormedFirst | mqttsn-udp-sr/src/main.rs:58 | well-formed bytes decode on their own, whatever follows |
| Utf8.StrayByte | mqttsn-udp-sr/src/main.rs:58 | behind well-formed text a byte that begins no encoding becomes one U+FFFD and swallows nothing |
| ReferenceBroker.Broker.HandleMessage | mqttsn-udp-sr/src/main.rs:107-168 | every command's effect on sets, counters, forwarded bytes and replies |
| ReferenceBroker.Broker.ForwardToAll | mqttsn-udp-sr/src/main.rs:139-146 | one message and one count per member, in any order |
| ReferenceBroker.Broker.OnDatagram | mqttsn-udp-sr/src/main.rs:53-63 | one round of the receive loop: cut to 4096 bytes, decoded, handled |
| ReferenceBroker.TrimSplits | mqttsn-udp-sr/src/main.rs:117 | trimming removes whitespace at both ends, and all of it |
| ReferenceBroker.TrimIs | mqttsn-udp-sr/src/main.rs:117 | and that determines the result |
| ReferenceBroker.WhitespaceIs | mqttsn-udp-sr/src/main.rs:117 | trimming knows exactly the 25 characters with the property White_Space |
| ReferenceBroker.CommandIff | mqttsn-udp-sr/src/main.rs:117-163 | for every text and topic: read as REGISTER, SUBSCRIBE or FLUSH of the topic iff the trimmed text is the word, one blank and the blank-free topic, alone or followed by a blank and anything |
| ReferenceBroker.PublishIffRebuilt | mqttsn-udp-sr/src/main.rs:134-136 | a message is accepted as PUBLISH of topic and rest iff the rebuilt payload equals the trimmed input |
| ReferenceBroker.PublishReads | mqttsn-udp-sr/src/main.rs:117-136 | for every rest, "PUBLISH topic rest" is read as a PUBLISH iff anything but whitespace follows the topic within the buffer |
| ReferenceBroker.TrimmedUnchangedIff | mqttsn-udp-sr/src/main.rs:53-136 | decoding, trimming and encoding return the datagram iff it is well-formed UTF-8, not padded, and within the buffer (or cut through a final U+FFFD) |
| ReferenceBroker.ForwardedUnchangedIff | mqttsn-udp-sr/src/main.rs:134-142 | a PUBLISH is forwarded byte for byte iff that holds |
| ReferenceBroker.PaddingIsCut | mqttsn-udp-sr/src/main.rs:117 | a final U+3000 is not forwarded |
| ReferenceBroker.IllFormedBytesGrow | mqttsn-udp-sr/src/main.rs:58 | the byte FF is forwarded as EF BF BD |
| ReferenceBroker.ForwardsAreCounted | mqttsn-udp-sr/src/main.rs:134-146 | over any run the clone counter and the number of forwarded messages are the sum of subscriber counts at each accepted PUBLISH |
| ReferenceBroker.TopicsAre | mqttsn-udp-sr/src/main.rs:117-163 | after any run of any datagrams: the topics are those some datagram registered or subscribed to, each with exactly the senders that subscribed since its last flush |
| ReferenceBroker.PublishForwards | mqttsn-udp-sr/src/main.rs:134-146 | a PUBLISH goes to each subscriber of its topic once and to nobody else, is counted, and is not answered |
| ReferenceBroker.RepliesAreDue | mqttsn-udp-sr/src/main.rs:117-163 | over any run of any datagrams: one reply per text with something after its first word, in order, to its sender, REGACK, SUBACK or FLUSHED as that word decides, and the publish counter counts the PUBLISHes |
| Equivalence.DispatchersAgree | bpf_broker/bpf_broker_proto.c:294-363 | the Rust receive loop and the daemons read a datagram as the same command, with or without line end |
| Equivalence.StepKeepsSame | bpf_broker/bpf_broker_proto.c:65-225 | one legal command keeps the sets equal and is accepted alike |
| Equivalence.StepAgreesIff | bpf_broker/bpf_broker_proto.c:65-225 | from equal sets, a command keeps them equal iff it is legal: registered first, room for topic and subscriber |
| Equivalence.SetsAgree | bpf_broker/bpf_broker_proto.c:65-225 | equal sets after every legal run |
| Equivalence.HistoriesAgree | bpf_broker/bpf_broker_proto.c:95-122 | the accepted subscriptions are the ones sent |
| Equivalence.ArraysAgree | bpf_broker_xdp/bpf_broker_proto.c:19-154 | same keys, and the arrays hold the first 2048 subscriptions since the flush |
| Equivalence.KeptRepeats | bpf_broker_xdp/bpf_broker_proto.c:40-58 | a history too long for the array repeats a subscriber within the kept part |
| Delivery.EnumerationReaches | bpf_broker/bpf_broker_kern.c:518-524 | any iteration of the packed set lists each subscriber once |
| Delivery.HearSends | mqttsn-udp-sr/src/main.rs:134-146 | a PUBLISH leaves the Rust broker's topics alone and adds exactly its messages, counted |
| Delivery.HeardIff | mqttsn-udp-sr/src/main.rs:37-146 | it sends the payload unchanged to each subscriber iff nobody is subscribed or the datagram reaches its socket unaltered, and sends at all iff it reaches it with text after the topic |
| Delivery.TcBrokerDelivers | bpf_broker/bpf_broker_kern.c:443-551 | the XDP+TC broker's copies reach exactly the Rust broker's set, once each |
| Delivery.CloneBrokerDelivers | bpf_broker_xdp/bpf_broker_kern.c:217-287 | the clones reach that set once each iff nobody subscribed twice since the last flush |
| Delivery.ThreeBrokersAgreeIff | mqttsn-udp-sr/src/main.rs:53-163 | after any legal run, all three deliver the same payload to the same set once each iff nobody subscribed twice and the datagram, if anyone is subscribed, reaches the Rust broker unaltered |
| Delivery.CopiesVerify | bpf_broker/bpf_broker_kern.c:356-551 | for frames with verifying sums and even UDP length up to 256 every copy of both brokers verifies |
| Delivery.PublishToHooks | bpf_broker/bpf_broker_kern.c:356-551 | the XDP and TC hooks as code: once each, verifying, counter conserved |
| Delivery.PublishToClones | bpf_broker_xdp/bpf_broker_kern.c:171-288 | the clone program as code: once each iff nobody subscribed twice |
| MixedRuns.ReferenceAfter | mqttsn-udp-sr/src/main.rs:53-163 | over any mixed run the Rust broker's topics and replies are those of its commands, its publish counter is the number of publications reaching it with text after the topic, and its clone counter the number of messages forwarded, modulo 2^64 |
| MixedRuns.TotalsAgreeIff | mqttsn-udp-sr/src/main.rs:137-146 | it forwards at most the sum of the audiences, and exactly that iff every publication with an audience reaches it with text after the topic |
| MixedRuns.Acknowledged | bpf_broker/bpf_broker_proto.c:294-367 | a legal command is acknowledged by both daemons, never refused: REGACK and SUBACK with its key, FLUSHED |
| MixedRuns.AnswersMatch | bpf_broker/bpf_broker_proto.c:294-367 | command by command the daemons' answers carry the words of the Rust broker's replies |
| MixedRuns.ServeEvent | bpf_broker/bpf_broker_proto.c:284-369 | one event served by both daemons, both kernel programs and the Rust loop keeps all states related, and both daemons give the answer the command is due |
| MixedRuns.ServeAll | bpf_broker/bpf_broker_kern.c:347-551 | over any mixed run every PUBLISH reaches the Rust broker's set of that moment, once each, in the XDP+TC broker, and in the clone broker iff without repeats; the clone counter is the sum of those sets' sizes modulo 2^32; the Rust broker's publish counter counts the publications that reach it with text; and all three brokers acknowledge every command, in order, with the same word |
| OneRun.TwoAreServed | mqttsn-udp-sr/src/main.rs:53-163 | for any two distinct subscribers: the run in which they join and an odd-length PUBLISH with verifying sums follows is legal, and all brokers take it to both, byte for byte |
| Decimal.FixedValue | pubsub-benchmark/src/main.rs:155-179 | the fixed-width digits denote the value modulo 10^width |
| Decimal.DigitsOf | pubsub-benchmark/src/main.rs:157-170 | the scratch loop ends inside 39 digits with exactly the value's digits |
| Decimal.WriteU128Fixed | pubsub-benchmark/src/main.rs:155-179 | fills the slice with those digits, left-padded or truncated, and nothing outside it |
| Decimal.ParseDecimalU64 | pubsub-benchmark/src/main.rs:125-137 | the value modulo 2^64 of a non-empty digit string, None otherwise |
| Decimal.ParseDecimalU128 | pubsub-benchmark/src/main.rs:139-151 | the same modulo 2^128 |
| Decimal.FixedRoundTrip | pubsub-benchmark/src/main.rs:125-179 | printing then parsing returns the number iff it fits the width |
| Message.Stamp | pubsub-benchmark/src/main.rs:416-418 | overwriting the two fields turns any template into the message for the new stamp |
| Message.FindField | pubsub-benchmark/src/main.rs:86-123 | the scan returns the n-th blank-separated field |
| Message.ParseTimestampNs | pubsub-benchmark/src/main.rs:86-103 | the number in field 2 |
| Message.ParseSeqNumber | pubsub-benchmark/src/main.rs:106-123 | the number in field 3 |
| Message.MessageRoundTrip | pubsub-benchmark/src/main.rs:378-395 | for every blank-free topic and every payload, both numbers are read back, unchanged iff below 10^20 and 10^10 |
| Message.BuiltLayout | pubsub-benchmark/src/main.rs:378-395 | for every topic and payload: field 1 is the topic, the payload follows the blank behind field 3, and the length is that of topic and payload plus 41 |
| Publishing.KernelReadsBuilt | pubsub-benchmark/src/main.rs:378-395 | from every message built for a plain topic the kernel programs cut exactly that topic |
| Publishing.ReferenceReadsBuilt | pubsub-benchmark/src/main.rs:378-395 | the Rust broker reads it as a PUBLISH to that topic with the decoded, end-trimmed remainder |
| Publishing.BuiltFrame | pubsub-benchmark/src/main.rs:378-395 | carried in a UDP frame to any of the sixteen ports it is a PUBLISH to that topic for all three brokers |
| Aggregation.Worker.Receive | pubsub-benchmark/src/main.rs:297-303 | one arrival's effect on a worker's table, cap included; `Aggregation.WorkerDescribes` says what that amounts to |
| Aggregation.MergeTables | pubsub-benchmark/src/main.rs:559-566 | the merge, entries in any order |
| Aggregation.Latencies | pubsub-benchmark/src/main.rs:567-570 | exactly one saturating sample per complete entry, in some order |
| Aggregation.WorkerDescribes | pubsub-benchmark/src/main.rs:287-304 | full or not, a table has at most 500000 entries and holds, per packet the worker takes account of, the copies, the first copy's send time and the latest arrival |
| Aggregation.CountedNumbers | pubsub-benchmark/src/main.rs:297-303 | the packets it takes account of are those of which a copy came when fewer than 500000 different packets had been seen |
| Aggregation.AllCountedIff | pubsub-benchmark/src/main.rs:297-303 | it takes account of every copy iff at most 500000 different packets reach it |
| Aggregation.ShardsDescribeAll | pubsub-benchmark/src/main.rs:557-566 | the merged table describes, in the same way, all that the workers took account of, for any split over workers, full tables included, first meaning first in merge order |
| Aggregation.ShardingIrrelevant | pubsub-benchmark/src/main.rs:557-571 | if copies of a number carry one send time, two shardings in which the workers take account of the same arrivals merge to the same table |
| Aggregation.Report | pubsub-benchmark/src/main.rs:287-571 | workers, merge and filter together, full tables included: of the arrivals the workers took account of, exactly one sample per packet with all copies in, its last arrival minus the first copy's send time, saturating |
| Aggregation.ReportUnique | pubsub-benchmark/src/main.rs:557-571 | if copies of a number carry one send time, the multiset of samples is determined by which copies arrived, whatever their order, the split over workers and the order of the tables |
| Aggregation.SplitMatters | pubsub-benchmark/src/main.rs:559-566 | otherwise the split does decide: two one-arrival shards give different samples in the two merge orders |
| Trial.ReadPacket | pubsub-benchmark/src/main.rs:290-303 | prefix test and both parsers: one arrival, or nothing |
| Trial.CopiesAreRead | pubsub-benchmark/src/main.rs:290-303 | from stamped copies with any datagrams in between that do not begin with "PUBLISH ", exactly the copies are read, in order |
| Trial.CopyIsRead | pubsub-benchmark/src/main.rs:378-418 | a stamped message is read as its number modulo 10^10 and its stamp modulo 10^20 |
| Trial.StampedOnce | pubsub-benchmark/src/main.rs:416-418 | copies of stamped messages carry one send time per number, as long as numbers do not repeat modulo 10^10 |
| Trial.Measure | pubsub-benchmark/src/main.rs:287-571 | bytes to report, acknowledgements and other datagrams in between: one sample for each published packet all of whose copies arrived, at whichever workers, its last arrival minus its stamp |
| Ndr.HalvedIsCeil | pubsub-benchmark/src/main.rs:628-665 | rounding up at every halving is rounding up once |
| Ndr.BoundsHold | pubsub-benchmark/src/main.rs:628-665 | along any search: lower bound a passed rate or the minimum, upper bound a failed rate or the maximum, every rate inside the initial range, gap at most the initial one halved once per trial |
| Ndr.FindNdr | pubsub-benchmark/src/main.rs:617-668 | every rate tried is the midpoint of the bounds the earlier outcomes left; the search ends exactly when nothing is left to try or a trial has brought the gap to at most 100, and makes no trial beyond that; the result is the lower bound or a passed rate, and under a monotone threshold it is at most the threshold and within max(100, ceil(gap / 2^iterations)) of it |

## Left out

- The loaders `bpf_broker_user.c` of both brokers, `app`, `pubsub-mixed-benchmark`, the scripts and the Makefiles: plumbing.
- Kernel helpers beyond a contract: maps are finite maps with their capacity, iteration is any order visiting each key once, `bpf_clone_redirect` emits a snapshot, the checksum helpers are RFC 1624, and these and `bpf_skb_pull_data` succeed.
- Kernel.KernelPrograms.CallbackFn: does not model the early returns after a failed helper call, nor `queue_count_map`, which nothing reads.
- Kernel.KernelPrograms.TcIngressBroker: does not model the early returns after a failed helper call.
- PacketOps.CsumReplace2: what the helper computes is assumed, as its code is not in the repository; likewise for `PacketOps.CsumReplace4`.
- The XDP_CLONE_TX driver, known only from the comment at bpf_broker_xdp/bpf_broker_kern.c:184-188: it is taken to make copies 1..n of the original frame.
- Per-CPU counters are one counter each.
- IP options: no program checks the header length, so validity is stated for 20-byte headers.
- UDP length fields below 8 or past the end of the frame: outside the delivery statements, though every program's effect on such frames is still modelled.
- Topics of 20 bytes and more in the daemon: the unterminated 20-byte buffer is treated as too long, although `strlen` would read past it; a SUBACK for such a topic repeats a text that is not modelled.
- An iteration of the inner map is taken to visit a key at most once, only while it is there, and to end only after visiting every key that was there all the time; what more the kernel's hash map does under concurrent writes is not modelled.
- 64-bit map values are read and written in one step.
- Refinement.Receive: assumes fewer than 2^32 accepted subscriptions to the published topic since its last flush; `Daemon.AfterWrap` says what holds beyond.
- Between the interface and the Rust broker's socket, the host is taken to drop what does not verify and to sort by port, and to do nothing else; failed sends are not modelled.
- MixedRuns.ServeAll: publications go to valid topics (1 to 19 printable ASCII characters), and fewer than 2^32 subscriptions to the topic have been accepted since its last flush; maps can be created whenever there is room.
- Threads of the Rust broker: messages are handled one at a time.
- Trial.Measure: assumes a blank-free topic, stamps below 10^20, at most 10^10 packets and at most 500000 different ones at any worker; `Trial.CopyIsRead` and `Aggregation.Report` say what happens beyond that.
- Publishing.ReferenceReadsBuilt: topics of 1 to 19 printable ASCII characters, the ones a daemon accepts and a terminal shows.
- Ndr.FindNdr: a trial is a boolean from an oracle; the floating-point drop fraction and the traffic behind it are left out.
- Printing, pacing, clocks, sockets, `poll_rps_loop` (never started) and the percentile output.
