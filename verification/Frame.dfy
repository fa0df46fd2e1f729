/** The Ethernet + IPv4 + UDP frame both kernel programs work on: where the
    fields are, which bytes each checksum covers, and what "this frame is the
    forwarded copy of that one" means. */
module Frame {
  import opened Words
  import opened Checksum

  const H_PROTO: nat := 12
  const IP: nat := 14
  const TOTAL_LEN: nat := 16
  const PROTOCOL: nat := 23
  const IP_CHECK: nat := 24
  const SADDR: nat := 26
  const DADDR: nat := 30
  const UDP: nat := 34
  const SPORT: nat := 34
  const DPORT: nat := 36
  const UDP_LEN: nat := 38
  const UDP_CHECK: nat := 40
  const PAYLOAD: nat := 42

  const ETH_P_IP := 0x0800
  const IPPROTO_UDP := 17

  /** What `refresh_headers` checks before the headers are touched. */
  predicate HeadersOk(f: seq<Byte>) {
    |f| >= PAYLOAD && Be16(f, H_PROTO) == ETH_P_IP && f[PROTOCOL] == IPPROTO_UDP
  }

  function UdpLen(f: seq<Byte>): U16
    requires HeadersOk(f)
  {
    Be16(f, UDP_LEN)
  }

  /** The UDP length field describes a segment that lies inside the frame. */
  predicate WellSized(f: seq<Byte>)
    requires HeadersOk(f)
  {
    8 <= UdpLen(f) && UDP + UdpLen(f) <= |f|
  }

  /** RFC 791 section 3.1: the header is IHL words of four bytes. */
  predicate NoIpOptions(f: seq<Byte>)
    requires HeadersOk(f)
  {
    f[IP] % 16 == 5
  }

  /** What else a host checks before it looks at the UDP part: version 4, and a
      total length that holds the segment and lies inside the frame. */
  predicate IpSized(f: seq<Byte>)
    requires HeadersOk(f)
  {
    f[IP] / 16 == 4 && 20 + UdpLen(f) <= Be16(f, TOTAL_LEN) && IP + Be16(f, TOTAL_LEN) <= |f|
  }

  function IpCovered(f: seq<Byte>): seq<Byte>
    requires HeadersOk(f) && NoIpOptions(f)
  {
    f[IP..IP + 4 * (f[IP] % 16)]
  }

  /** RFC 768: pseudo-header (addresses, zero, protocol, length) and segment. */
  function UdpCovered(f: seq<Byte>): seq<Byte>
    requires HeadersOk(f) && WellSized(f)
  {
    f[SADDR..UDP] + [0, IPPROTO_UDP] + f[UDP_LEN..UDP_CHECK] + f[UDP..UDP + UdpLen(f)]
  }

  /** RFC 768: a checksum field of zero says that the sender computed none, so
      a receiver verifies the sum only when the field is not zero. */
  predicate UdpAccepted(f: seq<Byte>)
    requires HeadersOk(f) && WellSized(f)
  {
    Le16(f, UDP_CHECK) == 0 || Accepts(UdpCovered(f))
  }

  /** What a receiver takes. */
  predicate ChecksumsValid(f: seq<Byte>) {
    && HeadersOk(f) && NoIpOptions(f) && WellSized(f) && IpSized(f)
    && Accepts(IpCovered(f)) && UdpAccepted(f)
  }

  /** The same with both sums verifying, whatever the UDP field holds. */
  predicate SumsValid(f: seq<Byte>) {
    && HeadersOk(f) && NoIpOptions(f) && WellSized(f) && IpSized(f)
    && Accepts(IpCovered(f)) && Accepts(UdpCovered(f))
  }

  // ------------------------------------------------------- host-order sums

  function IpSum(f: seq<Byte>): nat
    requires HeadersOk(f)
  {
    LeSum(f[IP..UDP])
  }

  /** Pseudo-header plus the segment up to frame offset `end`, in host order:
      `bpf_htons(IPPROTO_UDP)` is 0x1100 and `udp->len` is the raw word. */
  function UdpSumTo(f: seq<Byte>, end: nat): nat
    requires HeadersOk(f) && UDP <= end <= |f|
  {
    LeSum(f[SADDR..UDP]) + 0x1100 + Le16(f, UDP_LEN) + LeSum(f[UDP..end])
  }

  function UdpSum(f: seq<Byte>): nat
    requires HeadersOk(f) && WellSized(f)
  {
    UdpSumTo(f, UDP + UdpLen(f))
  }

  lemma CoveredSums(f: seq<Byte>)
    requires HeadersOk(f) && WellSized(f)
    ensures LeSum(UdpCovered(f)) == UdpSum(f) > 0
    ensures IpSum(f) > 0
  {
    var a, b, c, d := f[SADDR..UDP], [0, IPPROTO_UDP], f[UDP_LEN..UDP_CHECK], f[UDP..UDP + UdpLen(f)];
    LeSumConcat(a + b + c, d);
    LeSumConcat(a + b, c);
    LeSumConcat(a, b);
    LeSumWord(b);
    LeSumWord(c);
    LeSumPositive(f[IP..UDP], PROTOCOL - IP);
  }

  /** Both sums verify exactly when both host-order sums are multiples of
      65535: neither can be zero, because the protocol byte is in it. A receiver
      is satisfied with less: a UDP field of zero will do for the second. */
  lemma ValidIff(f: seq<Byte>)
    requires HeadersOk(f) && NoIpOptions(f) && WellSized(f)
    ensures SumsValid(f) <==> IpSized(f) && Cong(IpSum(f), 0) && Cong(UdpSum(f), 0)
    ensures ChecksumsValid(f) <==> IpSized(f) && Cong(IpSum(f), 0) && (Le16(f, UDP_CHECK) == 0 || Cong(UdpSum(f), 0))
  {
    CoveredSums(f);
    AcceptsIff(IpCovered(f));
    AcceptsIff(UdpCovered(f));
  }

  /** The header words of the two sums, one by one. */
  lemma AddressSum(f: seq<Byte>)
    requires HeadersOk(f)
    ensures LeSum(f[SADDR..UDP]) == Le16(f, 26) + Le16(f, 28) + Le16(f, 30) + Le16(f, 32)
    ensures LeSum(f[UDP..UDP]) == 0
  {
    hide Le16;
    LeSumStep(f, SADDR, 26);
    LeSumStep(f, SADDR, 28);
    LeSumStep(f, SADDR, 30);
    LeSumStep(f, SADDR, 32);
  }

  lemma UdpHeaderSum(f: seq<Byte>, end: nat)
    requires HeadersOk(f) && PAYLOAD <= end <= |f|
    ensures UdpSumTo(f, end) == Le16(f, 26) + Le16(f, 28) + Le16(f, 30) + Le16(f, 32) + 0x1100 + Le16(f, UDP_LEN)
              + Le16(f, SPORT) + Le16(f, DPORT) + Le16(f, UDP_LEN) + Le16(f, UDP_CHECK) + LeSum(f[PAYLOAD..end])
  {
    hide Le16;
    AddressSum(f);
    LeSumStep(f, UDP, SPORT);
    LeSumStep(f, UDP, DPORT);
    LeSumStep(f, UDP, UDP_LEN);
    LeSumStep(f, UDP, UDP_CHECK);
    assert f[UDP..end] == f[UDP..PAYLOAD] + f[PAYLOAD..end];
    LeSumConcat(f[UDP..PAYLOAD], f[PAYLOAD..end]);
  }

  /** The effect of one 16-bit header store on the two sums. */
  lemma StoreEffects(f: seq<Byte>, g: seq<Byte>, off: nat, v: U16, end: nat)
    requires HeadersOk(f) && PAYLOAD <= end <= |f|
    requires off % 2 == 0 && IP_CHECK <= off <= UDP_CHECK && off != UDP_LEN
    requires Stored(f, g, off, v)
    ensures HeadersOk(g)
    ensures IpSum(g) == IpSum(f) + (if off < UDP then v - Le16(f, off) else 0)
    ensures UdpSumTo(g, end) == UdpSumTo(f, end) + (if off >= SADDR then v - Le16(f, off) else 0)
  {
    LeSumStored(f, g, IP, UDP, off, v);
    LeSumStored(f, g, SADDR, UDP, off, v);
    LeSumStored(f, g, UDP, end, off, v);
  }

  // --------------------------------------------------- forwarded copies

  /** A subscriber as the maps store it: address in bits 63..32 and port in
      bits 31..16, both the memory image of the network-order field. */
  datatype Addr = Addr(ip: U32, port: U16)

  function Pack(a: Addr): U64 {
    a.ip * 0x1_0000_0000 + a.port * 0x1_0000
  }

  function Unpack(p: U64): Addr {
    Addr(p / 0x1_0000_0000, p / 0x1_0000 % 0x1_0000)
  }

  lemma UnpackPack(a: Addr)
    ensures Unpack(Pack(a)) == a
  {
    var p: int := Pack(a);
    assert p / 0x1_0000 == a.ip * 0x1_0000 + a.port;
    assert p / 0x1_0000_0000 == a.ip;
  }

  predicate InChecksum(k: int) {
    IP_CHECK <= k < SADDR || UDP_CHECK <= k < PAYLOAD
  }

  predicate InRewritten(k: int) {
    k < H_PROTO || SADDR <= k < UDP_LEN || InChecksum(k)
  }

  /** `g` is `f` turned round and addressed to `a`: MACs swapped, source taken
      from the old destination, every other byte outside the two checksum
      fields untouched. */
  predicate Rewritten(f: seq<Byte>, g: seq<Byte>, a: Addr)
    requires |f| >= PAYLOAD
  {
    && |g| == |f|
    && g[0..6] == f[6..12] && g[6..12] == f[0..6]
    && g[SADDR..DADDR] == f[DADDR..UDP]
    && Le32(g, DADDR) == a.ip
    && g[SPORT..DPORT] == f[DPORT..UDP_LEN]
    && Le16(g, DPORT) == a.port
    && forall k :: 0 <= k < |f| && !InRewritten(k) ==> g[k] == f[k]
  }

  /** The full promise for one forwarded copy. */
  predicate Delivered(f: seq<Byte>, g: seq<Byte>, a: Addr)
    requires |f| >= PAYLOAD
  {
    Rewritten(f, g, a) && ChecksumsValid(g)
  }

  /** The UDP sum of the copy for `a` with its checksum field taken as zero,
      read off the incoming frame: source address and port drop out, the
      destination's take their place, the subscriber's come in. */
  function BareUdpSum(f: seq<Byte>, a: Addr, end: nat): int
    requires HeadersOk(f) && PAYLOAD <= end <= |f|
  {
    UdpSumTo(f, end) - Le16(f, UDP_CHECK) - Le16(f, SADDR) - Le16(f, SADDR + 2) - Le16(f, SPORT)
    + a.ip % 0x1_0000 + a.ip / 0x1_0000 + a.port
  }

  lemma BareSumOfCopy(f: seq<Byte>, g: seq<Byte>, a: Addr, end: nat)
    requires HeadersOk(f) && HeadersOk(g) && Rewritten(f, g, a) && PAYLOAD <= end <= |f|
    ensures UdpSumTo(g, end) == BareUdpSum(f, a, end) + Le16(g, UDP_CHECK)
  {
    hide UdpSumTo, LeSum;
    UdpHeaderSum(f, end);
    UdpHeaderSum(g, end);
    CopiedWords(f, g, a);
    assert g[PAYLOAD..end] == f[PAYLOAD..end];
  }

  lemma CopiedWords(f: seq<Byte>, g: seq<Byte>, a: Addr)
    requires HeadersOk(f) && HeadersOk(g) && Rewritten(f, g, a)
    ensures Le16(g, SADDR) == Le16(f, DADDR) && Le16(g, SADDR + 2) == Le16(f, DADDR + 2)
    ensures Le16(g, DADDR) == a.ip % 0x1_0000 && Le16(g, DADDR + 2) == a.ip / 0x1_0000
    ensures Le16(g, SPORT) == Le16(f, DPORT) && Le16(g, DPORT) == a.port && Le16(g, UDP_LEN) == Le16(f, UDP_LEN)
  {
    assert forall k :: 0 <= k < 4 ==> g[SADDR + k] == g[SADDR..DADDR][k] == f[DADDR..UDP][k] == f[DADDR + k];
    assert forall k :: 0 <= k < 2 ==> g[SPORT + k] == g[SPORT..DPORT][k] == f[DPORT..UDP_LEN][k] == f[DPORT + k];
  }

  predicate SameButChecksums(g: seq<Byte>, h: seq<Byte>) {
    |g| == |h| && forall k :: 0 <= k < |g| && !InChecksum(k) ==> g[k] == h[k]
  }

  lemma SameAddress(g: seq<Byte>, h: seq<Byte>, i: nat, j: nat)
    requires i + 4 <= |g| && j + 4 <= |h| && Le32(g, i) == Le32(h, j)
    ensures g[i] == h[j] && g[i + 1] == h[j + 1] && g[i + 2] == h[j + 2] && g[i + 3] == h[j + 3]
    ensures g[i..i + 4] == h[j..j + 4]
  {
    SameWord(g, h, i, j);
    SameWord(g, h, i + 2, j + 2);
  }

  lemma PortOfBytes(g: seq<Byte>, h: seq<Byte>, i: nat)
    requires i + 2 <= |g| && i + 2 <= |h| && g[i] == h[i] && g[i + 1] == h[i + 1]
    ensures Le16(g, i) == Le16(h, i)
  {
  }

  lemma AddressOfBytes(g: seq<Byte>, h: seq<Byte>, i: nat)
    requires i + 4 <= |g| && i + 4 <= |h|
    requires g[i] == h[i] && g[i + 1] == h[i + 1] && g[i + 2] == h[i + 2] && g[i + 3] == h[i + 3]
    ensures Le32(g, i) == Le32(h, i)
  {
  }

  /** The copy is determined up to its two checksum fields. */
  lemma RewrittenDetermines(f: seq<Byte>, g: seq<Byte>, h: seq<Byte>, a: Addr)
    requires |f| >= PAYLOAD && Rewritten(f, g, a) && Rewritten(f, h, a)
    ensures SameButChecksums(g, h)
  {
    SameAddress(g, h, DADDR, DADDR);
    SameWord(g, h, DPORT, DPORT);
    forall k | 0 <= k < |g| && !InChecksum(k) ensures g[k] == h[k] {
      if k < 6 {
        assert g[k] == g[0..6][k] && h[k] == h[0..6][k];
      } else if k < 12 {
        assert g[k] == g[6..12][k - 6] && h[k] == h[6..12][k - 6];
      } else if SADDR <= k < DADDR {
        assert g[k] == g[SADDR..DADDR][k - SADDR] && h[k] == h[SADDR..DADDR][k - SADDR];
      } else if DADDR <= k < UDP {
        assert g[k] == g[DADDR..DADDR + 4][k - DADDR] && h[k] == h[DADDR..DADDR + 4][k - DADDR];
      } else if SPORT <= k < DPORT {
        assert g[k] == g[SPORT..DPORT][k - SPORT] && h[k] == h[SPORT..DPORT][k - SPORT];
      }
    }
  }

  /** Two frames that differ at most in their checksum fields differ in each
      sum by exactly the difference of the checksum words. */
  lemma SumsOfSame(g: seq<Byte>, h: seq<Byte>, end: nat)
    requires SameButChecksums(g, h) && HeadersOk(g) && HeadersOk(h) && PAYLOAD <= end <= |g|
    ensures IpSum(h) - IpSum(g) == Le16(h, IP_CHECK) - Le16(g, IP_CHECK)
    ensures UdpSumTo(h, end) - UdpSumTo(g, end) == Le16(h, UDP_CHECK) - Le16(g, UDP_CHECK)
  {
    var m := Put16(g, IP_CHECK, Le16(h, IP_CHECK));
    PutStores(g, IP_CHECK, Le16(h, IP_CHECK));
    StoreEffects(g, m, IP_CHECK, Le16(h, IP_CHECK), end);
    SameWord(m, h, IP_CHECK, IP_CHECK);
    StoreEffects(m, h, UDP_CHECK, Le16(h, UDP_CHECK), end);
  }

  /** Congruent sums and no all-ones checksum word: the frames are equal. */
  lemma EqualByResidue(g: seq<Byte>, h: seq<Byte>, end: nat)
    requires SameButChecksums(g, h) && HeadersOk(g) && HeadersOk(h) && PAYLOAD <= end <= |g|
    requires Le16(g, IP_CHECK) != 0xFFFF && Le16(h, IP_CHECK) != 0xFFFF
    requires Le16(g, UDP_CHECK) != 0xFFFF && Le16(h, UDP_CHECK) != 0xFFFF
    ensures g == h <==> Cong(IpSum(g), IpSum(h)) && Cong(UdpSumTo(g, end), UdpSumTo(h, end))
  {
    SumsOfSame(g, h, end);
    if Cong(IpSum(g), IpSum(h)) && Cong(UdpSumTo(g, end), UdpSumTo(h, end)) {
      CongAdd(IpSum(g), IpSum(h), Le16(g, IP_CHECK) - IpSum(g));
      CongUnique(Le16(g, IP_CHECK), Le16(h, IP_CHECK));
      CongAdd(UdpSumTo(g, end), UdpSumTo(h, end), Le16(g, UDP_CHECK) - UdpSumTo(g, end));
      CongUnique(Le16(g, UDP_CHECK), Le16(h, UDP_CHECK));
      SameWord(g, h, IP_CHECK, IP_CHECK);
      SameWord(g, h, UDP_CHECK, UDP_CHECK);
    }
  }
}
