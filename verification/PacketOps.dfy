/** The in-place packet operations the kernel programs share: header stores,
    the checksum helpers and loops, and the tests on the payload. */
module PacketOps {
  import opened Words
  import opened Checksum
  import opened Frame
  import opened Forwarding
  import opened TopicKey
  import Protocol

  method Store16(pkt: array<Byte>, off: nat, v: U16)
    requires off + 1 < pkt.Length
    modifies pkt
    ensures pkt[..] == Put16(old(pkt[..]), off, v)
  {
    pkt[off] := v % 0x100;
    pkt[off + 1] := v / 0x100;
  }

  method Store32(pkt: array<Byte>, off: nat, v: U32)
    requires off + 3 < pkt.Length
    modifies pkt
    ensures pkt[..] == Put32(old(pkt[..]), off, v)
  {
    Store16(pkt, off, v % 0x1_0000);
    Store16(pkt, off + 2, v / 0x1_0000);
  }

  method SwapMacsInPlace(pkt: array<Byte>)
    requires pkt.Length >= PAYLOAD
    modifies pkt
    ensures pkt[..] == SwapMacs(old(pkt[..]))
  {
    for i := 0 to 6
      invariant forall k :: 0 <= k < i ==> pkt[k] == old(pkt[k + 6]) && pkt[k + 6] == old(pkt[k])
      invariant forall k :: 0 <= k < pkt.Length && !(0 <= k < i) && !(6 <= k < 6 + i) ==> pkt[k] == old(pkt[k])
    {
      pkt[i], pkt[i + 6] := pkt[i + 6], pkt[i];
    }
  }

  /** `bpf_l3_csum_replace`/`bpf_l4_csum_replace` with a 16-bit value. */
  method CsumReplace2(pkt: array<Byte>, at: nat, from: U16, to: U16)
    requires at + 1 < pkt.Length
    modifies pkt
    ensures pkt[..] == Put16(old(pkt[..]), at, Eqn3(Le16(old(pkt[..]), at), from, to))
  {
    Store16(pkt, at, Eqn3(Le16(pkt[..], at), from, to));
  }

  /** The same with a 32-bit value. */
  method CsumReplace4(pkt: array<Byte>, at: nat, from: U32, to: U32)
    requires at + 1 < pkt.Length
    modifies pkt
    ensures pkt[..] == Put16(old(pkt[..]), at,
      Eqn3Wide(Le16(old(pkt[..]), at), from % 0x1_0000, from / 0x1_0000, to % 0x1_0000, to / 0x1_0000))
  {
    Store16(pkt, at, Eqn3Wide(Le16(pkt[..], at), from % 0x1_0000, from / 0x1_0000, to % 0x1_0000, to / 0x1_0000));
  }

  /** An address store with its two checksum replacements. */
  method PatchAddressInPlace(pkt: array<Byte>, off: nat, v: U32)
    requires pkt.Length >= PAYLOAD && off + 4 <= UDP
    modifies pkt
    ensures pkt[..] == PatchAddress(old(pkt[..]), off, v)
  {
    hide Put16, Eqn3Wide;
    var from := Le32(pkt[..], off);
    assert from % 0x1_0000 == Le16(pkt[..], off) && from / 0x1_0000 == Le16(pkt[..], off + 2);
    Store32(pkt, off, v);
    CsumReplace4(pkt, IP_CHECK, from, v);
    CsumReplace4(pkt, UDP_CHECK, from, v);
  }

  /** A port store with its checksum replacement. */
  method PatchPortInPlace(pkt: array<Byte>, off: nat, v: U16)
    requires pkt.Length >= PAYLOAD && off + 2 <= UDP_LEN
    modifies pkt
    ensures pkt[..] == PatchPort(old(pkt[..]), off, v)
  {
    hide Put16, Eqn3;
    var from := Le16(pkt[..], off);
    Store16(pkt, off, v);
    CsumReplace2(pkt, UDP_CHECK, from, v);
  }

  /** 32-bit accumulator: additions wrap in the source's `__u32`. */
  function Add32(a: U32, b: U32): U32 {
    if a + b < 0x1_0000_0000 then a + b else a + b - 0x1_0000_0000
  }

  method ComputeIpChecksum(pkt: array<Byte>) returns (result: U16)
    requires HeadersOk(pkt[..])
    ensures IpSum(pkt[..]) < 0x1_0000_0000 && result == Finish(IpSum(pkt[..]))
  {
    ghost var f := pkt[..];
    var csum: U32 := 0;
    for i := 0 to 10
      invariant csum == LeSum(f[IP..IP + 2 * i]) <= i * 0xFFFF
    {
      var word := Le16(pkt[..], IP + 2 * i);
      LeSumStep(f, IP, IP + 2 * i);
      csum := Add32(csum, word);
    }
    result := Finish(csum);
  }

  /** `compute_udp_checksum`; the two programs differ only in the loop bound,
      128 words in `bpf_broker` and 1024 in `bpf_broker_xdp`. */
  method ComputeUdpChecksum(pkt: array<Byte>, maxWords: nat) returns (result: U16)
    requires HeadersOk(pkt[..]) && maxWords <= 0x400
    ensures HostUdpSum(pkt[..], maxWords) < 0x1_0000_0000 && result == Finish(HostUdpSum(pkt[..], maxWords))
  {
    hide Le16, LeSum;
    ghost var f := pkt[..];
    var udpLen := UdpLen(pkt[..]);
    var csum := PseudoHeader(pkt);
    var ptr, i := UDP, 0;
    while i < maxWords
      invariant i <= HostWords(f, maxWords) && ptr == UDP + 2 * i
      invariant csum == UdpSumTo(f, ptr) <= (i + 6) * 0xFFFF
    {
      if ptr + 2 > pkt.Length || 2 * i >= udpLen {
        break;
      }
      LeSumStep(f, UDP, ptr);
      csum := Add32(csum, Le16(pkt[..], ptr));
      ptr := ptr + 2;
      i := i + 1;
    }
    assert i == HostWords(f, maxWords);
    if udpLen % 2 == 1 && ptr < pkt.Length {
      csum := Add32(csum, 0x100 * pkt[ptr] as U32);
    }
    result := Finish(csum);
  }

  method PseudoHeader(pkt: array<Byte>) returns (csum: U32)
    requires HeadersOk(pkt[..])
    ensures csum == UdpSumTo(pkt[..], UDP) <= 6 * 0xFFFF
  {
    hide Le16, LeSum;
    ghost var f := pkt[..];
    csum := Le16(pkt[..], SADDR + 2);
    csum := Add32(csum, Le16(pkt[..], SADDR));
    csum := Add32(csum, Le16(pkt[..], DADDR + 2));
    csum := Add32(csum, Le16(pkt[..], DADDR));
    csum := Add32(csum, 0x1100);
    csum := Add32(csum, Le16(pkt[..], UDP_LEN));
    AddressSum(f);
  }

  /** The bytes of "PUBLISH ". */
  const PUBLISH_BLANK: seq<Byte> := Protocol.PUBLISH + [SPACE]
  const TOPIC: nat := PAYLOAD + 8

  predicate IsPublish(f: seq<Byte>) {
    |f| >= TOPIC && f[PAYLOAD..TOPIC] == PUBLISH_BLANK
  }

  method StartsWithPublish(pkt: array<Byte>) returns (r: bool)
    ensures r == IsPublish(pkt[..])
  {
    for i := 0 to |PUBLISH_BLANK|
      invariant forall k :: 0 <= k < i ==> PAYLOAD + k < pkt.Length && pkt[PAYLOAD + k] == PUBLISH_BLANK[k]
    {
      if PAYLOAD + i >= pkt.Length || pkt[PAYLOAD + i] != PUBLISH_BLANK[i] {
        assert |pkt[..]| >= TOPIC ==> pkt[..][PAYLOAD..TOPIC][i] != PUBLISH_BLANK[i];
        return false;
      }
    }
    assert |PUBLISH_BLANK| == 8 && PUBLISH_BLANK[7] == 32;
    assert PAYLOAD + 7 < pkt.Length && pkt[..][PAYLOAD..TOPIC] == PUBLISH_BLANK;
    return true;
  }

  /** Destination ports 49152..49167 belong to the broker. */
  predicate ToBrokerPort(f: seq<Byte>)
    requires |f| >= PAYLOAD
  {
    49152 <= Be16(f, DPORT) <= 49167
  }

  predicate PublishToBroker(f: seq<Byte>) {
    HeadersOk(f) && ToBrokerPort(f) && IsPublish(f)
  }

  /** The map key a frame publishes to, if it is a PUBLISH for the broker. */
  function PublishKey(f: seq<Byte>): Option<Key> {
    if PublishToBroker(f) then KernelKey(f[TOPIC..]) else None
  }

  // ------------------------------------------- the same, byte by byte

  /** An IPv4 UDP frame whose payload begins with "PUBLISH ". */
  predicate PublishBytes(f: seq<Byte>) {
    && |f| >= 50 && f[12] == 0x08 && f[13] == 0x00 && f[23] == 17
    && f[42] == 80 && f[43] == 85 && f[44] == 66 && f[45] == 76
    && f[46] == 73 && f[47] == 83 && f[48] == 72 && f[49] == 32
  }

  /** Destination port 49152 to 49167. */
  predicate PortBytes(f: seq<Byte>)
    requires |f| >= 50
  {
    f[36] == 192 && f[37] <= 15
  }

  /** Which frames the programs look up a topic for, and which topic: nothing but
      the protocol bytes, the payload's first word and the sixteen ports decide. */
  lemma PublishKeyIs(f: seq<Byte>)
    ensures PublishKey(f) == if PublishBytes(f) && PortBytes(f) then KernelKey(f[50..]) else None
  {
    hide KernelKey;
    if |f| >= 50 {
      var head := f[PAYLOAD..TOPIC];
      assert forall i :: 0 <= i < 8 ==> head[i] == f[PAYLOAD + i];
      assert PUBLISH_BLANK == [80, 85, 66, 76, 73, 83, 72, 32];
      if PublishBytes(f) {
        assert head == PUBLISH_BLANK;
      }
      if IsPublish(f) {
        assert head[0] == 80 && head[1] == 85 && head[2] == 66 && head[3] == 76;
        assert head[4] == 73 && head[5] == 83 && head[6] == 72 && head[7] == 32;
      }
    }
  }

  /** A frame that publishes to `t`: up to 19 bytes without NUL, blank or line
      end, closed by a blank. */
  predicate PublishesTo(f: seq<Byte>, t: seq<Byte>) {
    && PublishBytes(f) && |t| <= 19 && |f| >= 51 + |t|
    && f[50..50 + |t|] == t && f[50 + |t|] == 32
    && forall i :: 0 <= i < |t| ==> t[i] != 0 && t[i] != 10 && t[i] != 13 && t[i] != 32
  }

  /** It is looked up under its zero-padded topic on each of the sixteen ports
      and on no other. */
  lemma PublishesToKey(f: seq<Byte>, t: seq<Byte>)
    requires PublishesTo(f, t)
    ensures PublishKey(f) == if PortBytes(f) then Some(Pad(t)) else None
    ensures |Pad(t)| == 20 && Pad(t)[..|t|] == t && forall i :: |t| <= i < 20 ==> Pad(t)[i] == 0
  {
    hide KernelKey;
    PublishKeyIs(f);
    var rest := f[51 + |t|..];
    assert f[50..] == t + [32] + rest by {
      assert f[50..] == f[50..50 + |t|] + f[50 + |t|..];
    }
    PlainKeysAgree(t, rest, []);
  }

  lemma KeyOnPorts(f: seq<Byte>)
    ensures forall t :: PublishesTo(f, t) ==> PublishKey(f) == if PortBytes(f) then Some(Pad(t)) else None
  {
    forall t | PublishesTo(f, t) ensures PublishKey(f) == if PortBytes(f) then Some(Pad(t)) else None {
      PublishesToKey(f, t);
    }
  }
}
