/** Where the two ways of forwarding stop being right: PUBLISH frames with valid
    checksums that patching delivers and recomputing gets wrong, and one without
    a UDP checksum for which it is the other way round; each with the exact set
    of subscribers that are served all the same. */
module Limits {
  import opened Words
  import opened Checksum
  import opened Frame
  import opened Forwarding
  import opened TopicKey
  import opened PacketOps
  import Kernel
  import CloneBroker

  const ETHERNET: seq<Byte> := [2, 0, 0, 0, 0, 1, 2, 0, 0, 0, 0, 2, 8, 0]

  /** From 10.0.0.1 port 50000 to 10.0.0.2 port 49152. */
  function FrameOf(total: Byte, total': Byte, ipCheck: Byte, ipCheck': Byte,
                   len: Byte, len': Byte, udpCheck: Byte, udpCheck': Byte, payload: seq<Byte>): (f: seq<Byte>)
    ensures |f| == PAYLOAD + |payload| && f[PAYLOAD..] == payload
    ensures HeadersOk(f) && NoIpOptions(f) && ToBrokerPort(f)
    ensures UdpLen(f) == 0x100 * len as int + len' as int
    ensures f[IP] / 16 == 4 && Be16(f, TOTAL_LEN) == 0x100 * total as int + total' as int
  {
    ETHERNET
    + [69, 0, total, total', 0, 0, 0, 0, 64, 17, ipCheck, ipCheck', 10, 0, 0, 1, 10, 0, 0, 2]
    + [195, 80, 192, 0, len, len', udpCheck, udpCheck'] + payload
  }

  /** The header words of the IP sum, one by one. */
  lemma IpHeaderSum(f: seq<Byte>)
    requires HeadersOk(f)
    ensures IpSum(f) == Le16(f, 14) + Le16(f, 16) + Le16(f, 18) + Le16(f, 20) + Le16(f, 22) + Le16(f, 24)
                        + Le16(f, 26) + Le16(f, 28) + Le16(f, 30) + Le16(f, 32)
  {
    hide Le16;
    AddressSum(f);
    LeSumStep(f, IP, 14);
    LeSumStep(f, IP, 16);
    LeSumStep(f, IP, 18);
    LeSumStep(f, IP, 20);
    LeSumStep(f, IP, 22);
    LeSumStep(f, IP, 24);
    assert f[IP..UDP] == f[IP..SADDR] + f[SADDR..UDP];
    LeSumConcat(f[IP..SADDR], f[SADDR..UDP]);
    assert f[IP..14] == [];
  }

  /** Both sums of such a frame. */
  lemma FrameSums(total: Byte, total': Byte, ipCheck: Byte, ipCheck': Byte,
                  len: Byte, len': Byte, udpCheck: Byte, udpCheck': Byte, payload: seq<Byte>)
    ensures var f := FrameOf(total, total', ipCheck, ipCheck', len, len', udpCheck, udpCheck', payload);
            && IpSum(f) == 69 + total + 0x100 * total' as int + 64 + 0x1100 + ipCheck + 0x100 * ipCheck' as int + 788
            && UdpSumTo(f, |f|) == 788 + 0x1100 + 2 * (len + 0x100 * len' as int) + 195 + 0x5000 + 192
                                   + udpCheck + 0x100 * udpCheck' as int + LeSum(payload)
  {
    var f := FrameOf(total, total', ipCheck, ipCheck', len, len', udpCheck, udpCheck', payload);
    FrameWords(total, total', ipCheck, ipCheck', len, len', udpCheck, udpCheck', payload);
    hide FrameOf, Le16, LeSum;
    assert f[PAYLOAD..|f|] == f[PAYLOAD..];
    IpHeaderSum(f);
    UdpHeaderSum(f, |f|);
  }

  lemma FrameWords(total: Byte, total': Byte, ipCheck: Byte, ipCheck': Byte,
                   len: Byte, len': Byte, udpCheck: Byte, udpCheck': Byte, payload: seq<Byte>)
    ensures var f := FrameOf(total, total', ipCheck, ipCheck', len, len', udpCheck, udpCheck', payload);
            && Le16(f, 14) == 69 && Le16(f, 16) == total + 0x100 * total' as int && Le16(f, 18) == Le16(f, 20) == 0
            && Le16(f, 22) == 64 + 0x1100 && Le16(f, 24) == ipCheck + 0x100 * ipCheck' as int
            && Le16(f, 26) == Le16(f, 30) == 10 && Le16(f, 28) == 0x100 && Le16(f, 32) == 0x200
            && Le16(f, 34) == 195 + 0x5000 && Le16(f, 36) == 192 && Le16(f, 38) == len + 0x100 * len' as int
            && Le16(f, 40) == udpCheck + 0x100 * udpCheck' as int
  {
  }

  lemma LeSumPair(b: Byte, c: Byte, s: seq<Byte>)
    ensures LeSum([b, c] + s) == b + 0x100 * c as int + LeSum(s)
  {
    LeSumConcat([b, c], s);
    LeSumWord([b, c]);
  }

  /** "PUBLISH t ", ten bytes. */
  const PREFIX: seq<Byte> := PUBLISH_BLANK + [116, 32]

  lemma PrefixPairs(s: seq<Byte>)
    ensures PREFIX + s == [80, 85] + ([66, 76] + ([73, 83] + ([72, 32] + ([116, 32] + s))))
    ensures (PREFIX + s)[..8] == PUBLISH_BLANK
  {
    hide LeSum;
  }

  /** The sum of "PUBLISH t " and whatever follows. */
  lemma PrefixSum(s: seq<Byte>)
    ensures LeSum(PREFIX + s) == 79255 + LeSum(s)
  {
    hide LeSum, PREFIX;
    PrefixPairs(s);
    var u := [116, 32] + s;
    LeSumPair(116, 32, s);
    LeSumPair(72, 32, u);
    LeSumPair(73, 83, [72, 32] + u);
    LeSumPair(66, 76, [73, 83] + ([72, 32] + u));
    LeSumPair(80, 85, [66, 76] + ([73, 83] + ([72, 32] + u)));
  }

  lemma StartsWithPrefix(f: seq<Byte>, s: seq<Byte>)
    requires |f| >= TOPIC && f[PAYLOAD..] == PREFIX + s
    ensures IsPublish(f)
  {
    PrefixPairs(s);
    assert f[PAYLOAD..TOPIC] == f[PAYLOAD..][..8];
  }

  /** The subscribers for which a sum that is `k` without them comes out as a
      multiple of 65535: about one in 65535. */
  predicate Completes(k: nat, a: Addr) {
    (k + a.ip % 0x1_0000 + a.ip / 0x1_0000 + a.port) % 0xFFFF == 0
  }

  // ---------------------------------------------------------- odd length

  /** "odd bytes" */
  const ODD: seq<Byte> := [111, 100, 100, 32, 98, 121, 116, 101, 115]

  /** "PUBLISH t odd bytes": 27 bytes of UDP in a frame of 61, above the minimum
      of Ethernet, so nothing is padded. */
  function OddFrame(): seq<Byte> {
    FrameOf(0, 47, 102, 188, 0, 27, 178, 202, PREFIX + ODD)
  }

  lemma OddSum()
    ensures LeSum(ODD) == 91164
  {
    assert ODD == [111, 100] + ([100, 32] + ([98, 121] + ([116, 101] + [115])));
    hide ODD;
    LeSumPair(116, 101, [115]);
    LeSumPair(98, 121, [116, 101] + [115]);
    LeSumPair(100, 32, [98, 121] + ([116, 101] + [115]));
    LeSumPair(111, 100, [100, 32] + ([98, 121] + ([116, 101] + [115])));
  }

  lemma OddFrameIsValid()
    ensures SumsValid(OddFrame()) && PublishToBroker(OddFrame()) && |OddFrame()| == 61 && UdpLen(OddFrame()) == 27
    ensures UdpSumTo(OddFrame(), 61) == 262140
  {
    hide FrameOf, IpSum, UdpSumTo, LeSum, Accepts;
    var f := OddFrame();
    FrameSums(0, 47, 102, 188, 0, 27, 178, 202, PREFIX + ODD);
    OddSum();
    PrefixSum(ODD);
    StartsWithPrefix(f, ODD);
    ValidIff(f);
  }

  /** The last byte of an odd segment is added in the wrong half of its word: no
      recomputed copy's sum verifies, and its receiver takes it only where the
      field happens to be zero. */
  lemma OddLengthMisdelivered(a: Addr)
    ensures Delivered(OddFrame(), SlowFrame(OddFrame(), a), a)
    ensures !SumsValid(FastFrame(OddFrame(), a, Kernel.UDP_WORDS))
    ensures Delivered(OddFrame(), FastFrame(OddFrame(), a, Kernel.UDP_WORDS), a) <==> Completes(22029, a)
    ensures Delivered(OddFrame(), FastFrame(OddFrame(), a, CloneBroker.CLONE_UDP_WORDS), a) <==> Completes(22029, a)
  {
    hide SlowFrame, FastFrame, Delivered, Accepts;
    var f := OddFrame();
    OddFrameIsValid();
    OddBareSum(a);
    ValidIff(f);
    SlowFrameDelivers(f, a);
    FastFrameDelivers(f, a, Kernel.UDP_WORDS);
    FastFrameDelivers(f, a, CloneBroker.CLONE_UDP_WORDS);
  }

  lemma OddBareSum(a: Addr)
    ensures HeadersOk(OddFrame()) && WellSized(OddFrame())
    ensures FastUnchecked(OddFrame(), a, Kernel.UDP_WORDS) <==> Completes(22029, a)
    ensures FastUnchecked(OddFrame(), a, CloneBroker.CLONE_UDP_WORDS) <==> Completes(22029, a)
    ensures !HarmlessTail(OddFrame(), Kernel.UDP_WORDS) && !HarmlessTail(OddFrame(), CloneBroker.CLONE_UDP_WORDS)
  {
    hide LeSum, UdpSumTo, Accepts, IpSum;
    var f := OddFrame();
    OddRead();
    FrameWords(0, 47, 102, 188, 0, 27, 178, 202, PREFIX + ODD);
    hide FrameOf;
    assert HostWords(f, Kernel.UDP_WORDS) == HostWords(f, CloneBroker.CLONE_UDP_WORDS) == 13;
  }

  lemma OddRead()
    ensures HeadersOk(OddFrame()) && WellSized(OddFrame()) && |OddFrame()| == 61 && UdpLen(OddFrame()) == 27
    ensures OddFrame()[60] == 115 && UdpSumTo(OddFrame(), 60) == 262025
  {
    hide LeSum, UdpSumTo, Accepts, IpSum;
    var f := OddFrame();
    OddFrameIsValid();
    assert f[60] == f[PAYLOAD..][18] == 115;
    hide FrameOf;
    SumSplit(f, 60, 61);
    assert f[60..61] == [115];
    LeSumOne(115);
  }

  lemma LeSumOne(b: Byte)
    ensures LeSum([b]) == b
  {
  }

  lemma OddLengthZeroField(a: Addr)
    ensures Le16(FastFrame(OddFrame(), a, Kernel.UDP_WORDS), UDP_CHECK) == 0 <==> Completes(22029, a)
  {
    hide FastFrame, OddFrame, FastUnchecked, HarmlessTail, SumsValid;
    OddBareSum(a);
    FastCheckZeroIff(OddFrame(), a, Kernel.UDP_WORDS);
  }

  /** Ports 59558 and 256 at 10.0.0.3. */
  const TAKER := Addr(10 + 0x300_0000, 42728)
  const REFUSER := Addr(10 + 0x300_0000, 1)

  /** Both outcomes exist: the first gets a copy with a zero checksum field and
      takes it, the second refuses its copy. */
  lemma OddLengthExamples()
    ensures Delivered(OddFrame(), FastFrame(OddFrame(), TAKER, Kernel.UDP_WORDS), TAKER)
    ensures Le16(FastFrame(OddFrame(), TAKER, Kernel.UDP_WORDS), UDP_CHECK) == 0
    ensures !Delivered(OddFrame(), FastFrame(OddFrame(), REFUSER, Kernel.UDP_WORDS), REFUSER)
  {
    assert Completes(22029, TAKER) && !Completes(22029, REFUSER);
    hide FastFrame, SlowFrame, Delivered, OddFrame, SumsValid, Completes, TAKER, REFUSER, HeadersOk;
    OddFrameIsValid();
    OddLengthMisdelivered(TAKER);
    OddLengthMisdelivered(REFUSER);
    OddLengthZeroField(TAKER);
  }

  // ---------------------------------------------------------- long datagrams

  /** 240 zero bytes and one more word. */
  const LONG: seq<Byte> := Zeros(240) + [1, 0]

  /** 260 bytes of UDP, four more than the fast path's loop reads. */
  function LongFrame(): seq<Byte> {
    FrameOf(1, 24, 101, 211, 1, 4, 205, 92, PREFIX + LONG)
  }

  lemma {:induction false} ZerosSum(n: nat)
    ensures LeSum(Zeros(n)) == 0
  {
    if n >= 2 {
      assert Zeros(n)[2..] == Zeros(n - 2);
      ZerosSum(n - 2);
    }
  }

  lemma LongSum()
    ensures LeSum(LONG) == 1
  {
    hide LeSum, Zeros;
    var b: seq<Byte> := [1, 0];
    LeSumConcat(Zeros(240), b);
    ZerosSum(240);
    LeSumWord(b);
  }

  lemma LongFrameIsValid()
    ensures SumsValid(LongFrame()) && PublishToBroker(LongFrame()) && |LongFrame()| == UDP + 260 && UdpLen(LongFrame()) == 260
    ensures UdpSumTo(LongFrame(), UDP + 260) == 131070
  {
    hide FrameOf, IpSum, UdpSumTo, LeSum, Accepts, LONG;
    var f := LongFrame();
    FrameSums(1, 24, 101, 211, 1, 4, 205, 92, PREFIX + LONG);
    LongSum();
    PrefixSum(LONG);
    StartsWithPrefix(f, LONG);
    LongLength();
    ValidIff(f);
  }

  lemma LongLength()
    ensures |LONG| == 242
  {
  }

  /** Words past the loop's 128 are left out of the sum; the clone broker's
      longer loop still reads them. */
  lemma LongDatagramMisdelivered(a: Addr)
    ensures Delivered(LongFrame(), SlowFrame(LongFrame(), a), a)
    ensures !SumsValid(FastFrame(LongFrame(), a, Kernel.UDP_WORDS))
    ensures Delivered(LongFrame(), FastFrame(LongFrame(), a, Kernel.UDP_WORDS), a) <==> Completes(20836, a)
    ensures Delivered(LongFrame(), FastFrame(LongFrame(), a, CloneBroker.CLONE_UDP_WORDS), a)
  {
    hide SlowFrame, FastFrame, Delivered, Accepts;
    var f := LongFrame();
    LongFrameIsValid();
    LongBareSum(a);
    ValidIff(f);
    SlowFrameDelivers(f, a);
    FastFrameDelivers(f, a, Kernel.UDP_WORDS);
    FastFrameDelivers(f, a, CloneBroker.CLONE_UDP_WORDS);
  }

  lemma LongBareSum(a: Addr)
    ensures HeadersOk(LongFrame()) && WellSized(LongFrame())
    ensures FastUnchecked(LongFrame(), a, Kernel.UDP_WORDS) <==> Completes(20836, a)
    ensures !HarmlessTail(LongFrame(), Kernel.UDP_WORDS) && HarmlessTail(LongFrame(), CloneBroker.CLONE_UDP_WORDS)
  {
    hide LeSum, UdpSumTo, Accepts, IpSum, LONG;
    var f := LongFrame();
    LongFrameIsValid();
    UnreadWords();
    LongRead();
    assert HostWords(f, Kernel.UDP_WORDS) == 128;
    FrameWords(1, 24, 101, 211, 1, 4, 205, 92, PREFIX + LONG);
    hide FrameOf;
  }

  lemma LongRead()
    ensures HeadersOk(LongFrame()) && |LongFrame()| == UDP + 260 && UdpSumTo(LongFrame(), UDP + 256) == 131069
  {
    hide LeSum, UdpSumTo, Accepts, IpSum, LongFrame;
    LongFrameIsValid();
    UnreadWords();
    SumSplit(LongFrame(), UDP + 256, UDP + 260);
  }

  lemma UnreadWords()
    ensures |LongFrame()| == UDP + 260 && LeSum(LongFrame()[UDP + 256..UDP + 260]) == 1
  {
    var t := LongFrame()[UDP + 256..UDP + 260];
    assert t == LongFrame()[PAYLOAD..][248..] == [0, 0, 1, 0];
    assert t[2..] == [1, 0];
    LeSumWord(t[2..]);
  }

  // ------------------------------------------------- frames without checksum

  /** "even bytes" */
  const EVEN: seq<Byte> := [101, 118, 101, 110, 32, 98, 121, 116, 101, 115]

  /** "PUBLISH t even bytes", sent without a UDP checksum. */
  function UncheckedFrame(): seq<Byte> {
    FrameOf(0, 48, 102, 187, 0, 28, 0, 0, PREFIX + EVEN)
  }

  lemma EvenSum()
    ensures LeSum(EVEN) == 143048
  {
    assert EVEN == [101, 118] + ([101, 110] + ([32, 98] + ([121, 116] + ([101, 115] + []))));
    hide EVEN;
    LeSumPair(101, 115, []);
    LeSumPair(121, 116, [101, 115] + []);
    LeSumPair(32, 98, [121, 116] + ([101, 115] + []));
    LeSumPair(101, 110, [32, 98] + ([121, 116] + ([101, 115] + [])));
    LeSumPair(101, 118, [101, 110] + ([32, 98] + ([121, 116] + ([101, 115] + []))));
  }

  lemma UncheckedFrameIsAccepted()
    ensures ChecksumsValid(UncheckedFrame()) && !SumsValid(UncheckedFrame()) && PublishToBroker(UncheckedFrame())
    ensures |UncheckedFrame()| == UDP + 28 && UdpLen(UncheckedFrame()) == 28
    ensures UdpSumTo(UncheckedFrame(), UDP + 28) == 262646
  {
    hide FrameOf, IpSum, UdpSumTo, LeSum, Accepts;
    var f := UncheckedFrame();
    FrameSums(0, 48, 102, 187, 0, 28, 0, 0, PREFIX + EVEN);
    FrameWords(0, 48, 102, 187, 0, 28, 0, 0, PREFIX + EVEN);
    EvenSum();
    PrefixSum(EVEN);
    StartsWithPrefix(f, EVEN);
    ValidIff(f);
  }

  /** Patching a checksum that is not there invents one: the fan-out's copies of
      such a frame are refused, the recomputed ones are not. */
  lemma UncheckedFrameMisdelivered(a: Addr)
    ensures Delivered(UncheckedFrame(), SlowFrame(UncheckedFrame(), a), a) <==> Completes(44594, a)
    ensures Delivered(UncheckedFrame(), FastFrame(UncheckedFrame(), a, Kernel.UDP_WORDS), a)
    ensures Delivered(UncheckedFrame(), FastFrame(UncheckedFrame(), a, CloneBroker.CLONE_UDP_WORDS), a)
  {
    hide SlowFrame, FastFrame, Delivered, Accepts, IpSum, UdpSumTo, UncheckedFrame, SlowUnchecked, FastUnchecked, HarmlessTail;
    var f := UncheckedFrame();
    UncheckedFrameIsAccepted();
    UncheckedBareSum(a);
    ValidIff(f);
    SlowFrameDelivers(f, a);
    FastFrameDelivers(f, a, Kernel.UDP_WORDS);
    FastFrameDelivers(f, a, CloneBroker.CLONE_UDP_WORDS);
  }

  lemma UncheckedBareSum(a: Addr)
    ensures HeadersOk(UncheckedFrame()) && WellSized(UncheckedFrame()) && Le16(UncheckedFrame(), DPORT) != 0
    ensures SlowUnchecked(UncheckedFrame(), a) <==> Completes(44594, a)
    ensures HarmlessTail(UncheckedFrame(), Kernel.UDP_WORDS) && HarmlessTail(UncheckedFrame(), CloneBroker.CLONE_UDP_WORDS)
  {
    hide Accepts, IpSum, UdpSumTo, LeSum;
    UncheckedFrameIsAccepted();
    FrameWords(0, 48, 102, 187, 0, 28, 0, 0, PREFIX + EVEN);
    hide FrameOf;
  }
}
