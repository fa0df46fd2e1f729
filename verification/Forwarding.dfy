/** The two ways a PUBLISH frame is turned into a subscriber's copy, as
    functions on frames, and how they relate: patching with incremental
    checksums (`tc_ingress_broker`) and rewriting with full recomputation
    (`xdp_broker` in both brokers). */
module Forwarding {
  import opened Words
  import opened Checksum
  import opened Frame

  function SwapMacs(f: seq<Byte>): (r: seq<Byte>)
    requires |f| >= PAYLOAD
    ensures |r| == |f|
  {
    f[6..12] + f[0..6] + f[H_PROTO..]
  }

  // ------------------------------------------------- incremental patching

  /** Store a 32-bit address, then `bpf_l3_csum_replace` and
      `bpf_l4_csum_replace` with the old and new value. */
  function PatchAddress(f: seq<Byte>, off: nat, v: U32): (r: seq<Byte>)
    requires |f| >= PAYLOAD && off + 4 <= UDP
    ensures |r| == |f|
  {
    PatchWords(f, off, v % 0x1_0000, v / 0x1_0000)
  }

  function PatchWords(f: seq<Byte>, off: nat, lo: U16, hi: U16): (r: seq<Byte>)
    requires |f| >= PAYLOAD && off + 4 <= UDP
    ensures |r| == |f|
  {
    var g := Put16(Put16(f, off, lo), off + 2, hi);
    var h := Put16(g, IP_CHECK, Eqn3Wide(Le16(g, IP_CHECK), Le16(f, off), Le16(f, off + 2), lo, hi));
    Put16(h, UDP_CHECK, Eqn3Wide(Le16(h, UDP_CHECK), Le16(f, off), Le16(f, off + 2), lo, hi))
  }

  /** Store a port, then `bpf_l4_csum_replace`. */
  function PatchPort(f: seq<Byte>, off: nat, v: U16): (r: seq<Byte>)
    requires |f| >= PAYLOAD && off + 2 <= UDP_LEN
    ensures |r| == |f|
  {
    var g := Put16(f, off, v);
    Put16(g, UDP_CHECK, Eqn3(Le16(g, UDP_CHECK), Le16(f, off), v))
  }

  /** What happens once per PUBLISH, before the subscribers are visited. */
  function TurnRound(f: seq<Byte>): (r: seq<Byte>)
    requires |f| >= PAYLOAD
    ensures |r| == |f|
  {
    var g := SwapMacs(f);
    var h := PatchAddress(g, SADDR, Le32(g, DADDR));
    PatchPort(h, SPORT, Le16(h, DPORT))
  }

  /** What happens once per subscriber, on whatever the last one left. */
  function Readdress(g: seq<Byte>, a: Addr): (r: seq<Byte>)
    requires |g| >= PAYLOAD
    ensures |r| == |g|
  {
    PatchPort(PatchAddress(g, DADDR, a.ip), DPORT, a.port)
  }

  function SlowFrame(f: seq<Byte>, a: Addr): (r: seq<Byte>)
    requires |f| >= PAYLOAD
  {
    Readdress(TurnRound(f), a)
  }

  /** Every byte but the stored field and the two checksum words stays. */
  predicate Keeps(f: seq<Byte>, g: seq<Byte>, lo: nat, hi: nat) {
    |g| == |f| && forall k :: 0 <= k < |f| && !(lo <= k < hi) && !InChecksum(k) ==> g[k] == f[k]
  }

  /** Both sums keep their residues. */
  predicate SameResidues(f: seq<Byte>, g: seq<Byte>, end: nat)
    requires HeadersOk(f) && HeadersOk(g) && |g| == |f| && PAYLOAD <= end <= |f|
  {
    Cong(IpSum(g), IpSum(f)) && Cong(UdpSumTo(g, end), UdpSumTo(f, end))
  }

  /** One replacement, seen from a sum that contains both the field and the
      checksum word: what the field gains, the checksum gives back. */
  lemma Balance(sum: int, sum': int, c: int, c': int, m: int, m': int)
    requires sum' == sum + (c' - c) + (m' - m) && Cong(c' + m', c + m)
    ensures Cong(sum', sum)
  {
    CongAdd(c' + m', c + m, sum - c - m);
  }

  /** `g` is `f` with `width` bytes at `off` rewritten and the checksums
      patched for it. */
  predicate Patched(f: seq<Byte>, g: seq<Byte>, off: nat, width: nat, end: nat)
    requires HeadersOk(f) && PAYLOAD <= end <= |f|
  {
    HeadersOk(g) && Keeps(f, g, off, off + width) && SameResidues(f, g, end)
  }

  /** Only replacing all-ones by zero can leave an all-ones checksum word. */
  predicate NoNewOnes(f: seq<Byte>, g: seq<Byte>, at: nat, ones: bool)
    requires at + 1 < |f| && at + 1 < |g|
  {
    Le16(g, at) == 0xFFFF <==> Le16(f, at) == 0xFFFF && ones
  }

  lemma PatchWordsChain(f: seq<Byte>, f1: seq<Byte>, f2: seq<Byte>, f3: seq<Byte>, g: seq<Byte>,
                        off: nat, lo: U16, hi: U16, c: U16, u: U16, end: nat)
    requires HeadersOk(f) && PAYLOAD <= end <= |f| && (off == SADDR || off == DADDR)
    requires Stored(f, f1, off, lo) && Stored(f1, f2, off + 2, hi)
    requires Stored(f2, f3, IP_CHECK, c) && Stored(f3, g, UDP_CHECK, u)
    ensures HeadersOk(g) && Keeps(f, g, off, off + 4)
    ensures Le16(g, off) == lo && Le16(g, off + 2) == hi && Le16(g, IP_CHECK) == c && Le16(g, UDP_CHECK) == u
    ensures IpSum(g) == IpSum(f) + (c - Le16(f, IP_CHECK)) + (lo + hi - (Le16(f, off) + Le16(f, off + 2)))
    ensures UdpSumTo(g, end) == UdpSumTo(f, end) + (u - Le16(f, UDP_CHECK)) + (lo + hi - (Le16(f, off) + Le16(f, off + 2)))
  {
    hide IpSum, UdpSumTo;
    StoreEffects(f, f1, off, lo, end);
    StoreEffects(f1, f2, off + 2, hi, end);
    StoreEffects(f2, f3, IP_CHECK, c, end);
    StoreEffects(f3, g, UDP_CHECK, u, end);
  }

  lemma PatchWordsEffect(f: seq<Byte>, off: nat, lo: U16, hi: U16, end: nat)
    requires HeadersOk(f) && PAYLOAD <= end <= |f| && (off == SADDR || off == DADDR)
    ensures WordsPatched(f, PatchWords(f, off, lo, hi), off, lo, hi, end)
  {
    hide Residue, Eqn3;
    var f1 := Put16(f, off, lo);
    PutStores(f, off, lo);
    var f2 := Put16(f1, off + 2, hi);
    PutStores(f1, off + 2, hi);
    var c := Eqn3Wide(Le16(f2, IP_CHECK), Le16(f, off), Le16(f, off + 2), lo, hi);
    var f3 := Put16(f2, IP_CHECK, c);
    PutStores(f2, IP_CHECK, c);
    var u := Eqn3Wide(Le16(f3, UDP_CHECK), Le16(f, off), Le16(f, off + 2), lo, hi);
    var g := Put16(f3, UDP_CHECK, u);
    PutStores(f3, UDP_CHECK, u);
    WordsPatchedByStores(f, f1, f2, f3, g, off, lo, hi, c, u, end);
  }

  lemma WordsPatchedByStores(f: seq<Byte>, f1: seq<Byte>, f2: seq<Byte>, f3: seq<Byte>, g: seq<Byte>,
                             off: nat, lo: U16, hi: U16, c: U16, u: U16, end: nat)
    requires HeadersOk(f) && PAYLOAD <= end <= |f| && (off == SADDR || off == DADDR)
    requires c == Eqn3Wide(Le16(f, IP_CHECK), Le16(f, off), Le16(f, off + 2), lo, hi)
    requires u == Eqn3Wide(Le16(f, UDP_CHECK), Le16(f, off), Le16(f, off + 2), lo, hi)
    requires Stored(f, f1, off, lo) && Stored(f1, f2, off + 2, hi)
    requires Stored(f2, f3, IP_CHECK, c) && Stored(f3, g, UDP_CHECK, u)
    ensures WordsPatched(f, g, off, lo, hi, end)
  {
    hide Residue, Eqn3Wide;
    PatchWordsChain(f, f1, f2, f3, g, off, lo, hi, c, u, end);
    Eqn3WideCong(Le16(f, IP_CHECK), Le16(f, off), Le16(f, off + 2), lo, hi);
    Eqn3WideCong(Le16(f, UDP_CHECK), Le16(f, off), Le16(f, off + 2), lo, hi);
    PatchWordsBalance(f, g, off, lo, hi, c, u, end);
  }

  predicate WordsPatched(f: seq<Byte>, g: seq<Byte>, off: nat, lo: U16, hi: U16, end: nat)
    requires HeadersOk(f) && PAYLOAD <= end <= |f| && (off == SADDR || off == DADDR)
  {
    var ones := Le16(f, off) == Le16(f, off + 2) == 0xFFFF && lo == hi == 0;
    && Patched(f, g, off, 4, end)
    && Le16(g, off) == lo && Le16(g, off + 2) == hi
    && NoNewOnes(f, g, IP_CHECK, ones) && NoNewOnes(f, g, UDP_CHECK, ones)
  }

  lemma PatchWordsBalance(f: seq<Byte>, g: seq<Byte>, off: nat, lo: U16, hi: U16, c: U16, u: U16, end: nat)
    requires HeadersOk(f) && PAYLOAD <= end <= |f| && (off == SADDR || off == DADDR)
    requires HeadersOk(g) && Keeps(f, g, off, off + 4)
    requires Le16(g, off) == lo && Le16(g, off + 2) == hi && Le16(g, IP_CHECK) == c && Le16(g, UDP_CHECK) == u
    requires var m := Le16(f, off) + Le16(f, off + 2);
             IpSum(g) == IpSum(f) + (c - Le16(f, IP_CHECK)) + (lo + hi - m) &&
             UdpSumTo(g, end) == UdpSumTo(f, end) + (u - Le16(f, UDP_CHECK)) + (lo + hi - m) &&
             Cong(c + (lo + hi), Le16(f, IP_CHECK) + m) && Cong(u + (lo + hi), Le16(f, UDP_CHECK) + m)
    requires var ones := Le16(f, off) == Le16(f, off + 2) == 0xFFFF && lo == hi == 0;
             (c == 0xFFFF <==> Le16(f, IP_CHECK) == 0xFFFF && ones) &&
             (u == 0xFFFF <==> Le16(f, UDP_CHECK) == 0xFFFF && ones)
    ensures WordsPatched(f, g, off, lo, hi, end)
  {
    var m := Le16(f, off) + Le16(f, off + 2);
    Balance(IpSum(f), IpSum(g), Le16(f, IP_CHECK), c, m, lo + hi);
    Balance(UdpSumTo(f, end), UdpSumTo(g, end), Le16(f, UDP_CHECK), u, m, lo + hi);
  }

  lemma PatchAddressEffect(f: seq<Byte>, off: nat, v: U32, end: nat)
    requires HeadersOk(f) && PAYLOAD <= end <= |f| && (off == SADDR || off == DADDR)
    ensures AddressPatched(f, PatchAddress(f, off, v), off, v, end)
  {
    PatchWordsEffect(f, off, v % 0x1_0000, v / 0x1_0000, end);
    WordsAreAddress(f, PatchAddress(f, off, v), off, v, end);
  }

  predicate AddressPatched(f: seq<Byte>, g: seq<Byte>, off: nat, v: U32, end: nat)
    requires HeadersOk(f) && PAYLOAD <= end <= |f| && (off == SADDR || off == DADDR)
  {
    var ones := Le32(f, off) == 0xFFFF_FFFF && v == 0;
    && Patched(f, g, off, 4, end)
    && Le32(g, off) == v
    && NoNewOnes(f, g, IP_CHECK, ones) && NoNewOnes(f, g, UDP_CHECK, ones)
  }

  lemma WordsAreAddress(f: seq<Byte>, g: seq<Byte>, off: nat, v: U32, end: nat)
    requires HeadersOk(f) && PAYLOAD <= end <= |f| && (off == SADDR || off == DADDR)
    requires WordsPatched(f, g, off, v % 0x1_0000, v / 0x1_0000, end)
    ensures AddressPatched(f, g, off, v, end)
  {
  }

  lemma PatchPortEffect(f: seq<Byte>, off: nat, v: U16, end: nat)
    requires HeadersOk(f) && PAYLOAD <= end <= |f| && (off == SPORT || off == DPORT)
    ensures var g := PatchPort(f, off, v);
            Patched(f, g, off, 2, end) && Le16(g, off) == v && Le16(g, IP_CHECK) == Le16(f, IP_CHECK) &&
            NoNewOnes(f, g, UDP_CHECK, Le16(f, off) == 0xFFFF && v == 0)
  {
    hide Residue, Eqn3, IpSum, UdpSumTo;
    var f1 := Put16(f, off, v);
    var u := Eqn3(Le16(f1, UDP_CHECK), Le16(f, off), v);
    var g := Put16(f1, UDP_CHECK, u);
    PutStores(f, off, v);
    PutStores(f1, UDP_CHECK, u);
    StoreEffects(f, f1, off, v, end);
    StoreEffects(f1, g, UDP_CHECK, u, end);
    Eqn3Cong(Le16(f, UDP_CHECK), Le16(f, off), v);
    Balance(UdpSumTo(f, end), UdpSumTo(g, end), Le16(f, UDP_CHECK), u, Le16(f, off), v);
  }

  lemma SwapMacsEffect(f: seq<Byte>, end: nat)
    requires HeadersOk(f) && PAYLOAD <= end <= |f|
    ensures var g := SwapMacs(f);
            HeadersOk(g) && SameResidues(f, g, end) && forall k :: H_PROTO <= k < |f| ==> g[k] == f[k]
  {
    var g := SwapMacs(f);
    assert forall k :: H_PROTO <= k < |f| ==> g[k] == f[k];
    assert g[IP..UDP] == f[IP..UDP] && g[SADDR..UDP] == f[SADDR..UDP] && g[UDP..end] == f[UDP..end];
  }

  /** A frame the subscriber loop may start from: no further patch of the
      destination can leave an all-ones checksum word. */
  predicate Settled(g: seq<Byte>)
    requires |g| >= PAYLOAD
  {
    && Le16(g, UDP_CHECK) != 0xFFFF
    && (Le16(g, IP_CHECK) == 0xFFFF ==> Le32(g, DADDR) == 0)
  }

  /** The part of a copy that is the same for every subscriber. */
  predicate TurnedRound(f: seq<Byte>, g: seq<Byte>)
    requires |f| >= PAYLOAD
  {
    && |g| == |f|
    && g[0..6] == f[6..12] && g[6..12] == f[0..6]
    && g[SADDR..DADDR] == f[DADDR..UDP]
    && g[SPORT..DPORT] == f[DPORT..UDP_LEN]
    && forall k :: 0 <= k < |f| && (DADDR <= k < UDP || DPORT <= k < UDP_LEN || !InRewritten(k)) ==> g[k] == f[k]
  }

  lemma TurnRoundChain(f: seq<Byte>, m: seq<Byte>, h: seq<Byte>, g: seq<Byte>, end: nat)
    requires HeadersOk(f) && HeadersOk(m) && HeadersOk(h) && PAYLOAD <= end <= |f|
    requires m == SwapMacs(f) && SameResidues(f, m, end) && forall k :: H_PROTO <= k < |f| ==> m[k] == f[k]
    requires Patched(m, h, SADDR, 4, end) && Le32(h, SADDR) == Le32(m, DADDR)
    requires Patched(h, g, SPORT, 2, end) && Le16(g, SPORT) == Le16(h, DPORT)
    ensures HeadersOk(g) && SameResidues(f, g, end) && TurnedRound(f, g)
  {
    hide Residue, IpSum, UdpSumTo, Le16, Le32;
    SameWord(g, h, SPORT, DPORT);
    SameAddress(h, m, SADDR, DADDR);
    assert forall k :: 0 <= k < 12 ==> g[k] == m[k];
  }

  lemma TurnRoundEffect(f: seq<Byte>, end: nat)
    requires HeadersOk(f) && PAYLOAD <= end <= |f|
    ensures var g := TurnRound(f);
            HeadersOk(g) && SameResidues(f, g, end) && TurnedRound(f, g) && (Le16(f, DPORT) != 0 ==> Settled(g))
  {
    hide Residue, IpSum, UdpSumTo, PatchAddress, PatchPort, SwapMacs;
    var m := SwapMacs(f);
    SwapMacsEffect(f, end);
    PatchAddressEffect(m, SADDR, Le32(m, DADDR), end);
    var h := PatchAddress(m, SADDR, Le32(m, DADDR));
    PatchPortEffect(h, SPORT, Le16(h, DPORT), end);
    TurnRoundChain(f, m, h, PatchPort(h, SPORT, Le16(h, DPORT)), end);
  }

  /** The part of a copy that names the subscriber. */
  predicate Readdressed(g: seq<Byte>, h: seq<Byte>, a: Addr)
    requires |g| >= PAYLOAD
  {
    && |h| == |g|
    && Le32(h, DADDR) == a.ip && Le16(h, DPORT) == a.port
    && forall k :: 0 <= k < |g| && !(DADDR <= k < UDP) && !(DPORT <= k < UDP_LEN) && !InChecksum(k) ==> h[k] == g[k]
  }

  /** The callback's whole effect, from any frame the loop can be in. */
  lemma ReaddressEffect(g: seq<Byte>, a: Addr, end: nat)
    requires HeadersOk(g) && PAYLOAD <= end <= |g|
    ensures var h := Readdress(g, a);
            HeadersOk(h) && SameResidues(g, h, end) && Readdressed(g, h, a) &&
            (Settled(g) ==> Settled(h) && Le16(h, IP_CHECK) != 0xFFFF)
  {
    hide Residue, IpSum, UdpSumTo, PatchAddress, PatchPort;
    PatchAddressEffect(g, DADDR, a.ip, end);
    var i := PatchAddress(g, DADDR, a.ip);
    PatchPortEffect(i, DPORT, a.port, end);
    ReaddressChain(g, i, PatchPort(i, DPORT, a.port), a, end);
  }

  lemma ReaddressChain(g: seq<Byte>, i: seq<Byte>, h: seq<Byte>, a: Addr, end: nat)
    requires HeadersOk(g) && HeadersOk(i) && PAYLOAD <= end <= |g|
    requires Patched(g, i, DADDR, 4, end) && Le32(i, DADDR) == a.ip
    requires Patched(i, h, DPORT, 2, end) && Le16(h, DPORT) == a.port
    ensures HeadersOk(h) && SameResidues(g, h, end) && Readdressed(g, h, a)
  {
  }

  lemma Compose(f: seq<Byte>, g: seq<Byte>, h: seq<Byte>, a: Addr)
    requires HeadersOk(f) && TurnedRound(f, g) && Readdressed(g, h, a)
    ensures Rewritten(f, h, a)
  {
    assert h[0..6] == g[0..6] && h[6..12] == g[6..12];
    assert h[SADDR..DADDR] == g[SADDR..DADDR] && h[SPORT..DPORT] == g[SPORT..DPORT];
  }

  lemma KeptHeader(f: seq<Byte>, g: seq<Byte>, a: Addr)
    requires HeadersOk(f) && Rewritten(f, g, a)
    ensures HeadersOk(g) && UdpLen(g) == UdpLen(f)
    ensures NoIpOptions(g) <==> NoIpOptions(f)
    ensures WellSized(g) <==> WellSized(f)
    ensures IpSized(g) <==> IpSized(f)
  {
    assert g[UDP_LEN] == f[UDP_LEN] && g[UDP_LEN + 1] == f[UDP_LEN + 1];
    assert g[H_PROTO] == f[H_PROTO] && g[H_PROTO + 1] == f[H_PROTO + 1];
    assert g[IP] == f[IP] && g[TOTAL_LEN] == f[TOTAL_LEN] && g[TOTAL_LEN + 1] == f[TOTAL_LEN + 1];
  }

  lemma SlowFrameEffect(f: seq<Byte>, a: Addr, end: nat)
    requires HeadersOk(f) && PAYLOAD <= end <= |f|
    ensures var h := SlowFrame(f, a);
            Rewritten(f, h, a) && HeadersOk(h) && SameResidues(f, h, end) &&
            (Le16(f, DPORT) != 0 ==> Le16(h, IP_CHECK) != 0xFFFF && Le16(h, UDP_CHECK) != 0xFFFF)
  {
    hide Residue, IpSum, UdpSumTo, TurnRound, Readdress;
    TurnRoundEffect(f, end);
    ReaddressEffect(TurnRound(f), a, end);
    Compose(f, TurnRound(f), SlowFrame(f, a), a);
  }

  /** The patched copy for `a` leaves with a UDP field of zero. */
  predicate SlowUnchecked(f: seq<Byte>, a: Addr)
    requires HeadersOk(f) && WellSized(f)
  {
    Cong(UdpSum(f), BareUdpSum(f, a, UDP + UdpLen(f)))
  }

  /** A sum, the same sum without the checksum word, and that word. */
  lemma ZeroWordIff(sum: int, bare: int, c: U16)
    requires sum == bare + c && c != 0xFFFF
    ensures c == 0 <==> Cong(sum, bare)
  {
    if Cong(sum, bare) {
      CongAdd(sum, bare, -bare);
      CongUnique(c, 0);
    }
  }

  lemma SlowCheckZeroIff(f: seq<Byte>, a: Addr)
    requires HeadersOk(f) && WellSized(f) && Le16(f, DPORT) != 0
    ensures Le16(SlowFrame(f, a), UDP_CHECK) == 0 <==> SlowUnchecked(f, a)
  {
    hide SlowFrame, Residue, UdpSumTo, BareUdpSum;
    var h, end := SlowFrame(f, a), UDP + UdpLen(f);
    SlowFrameEffect(f, a, end);
    BareSumOfCopy(f, h, a, end);
    ZeroWordIff(UdpSumTo(h, end), BareUdpSum(f, a, end), Le16(h, UDP_CHECK));
  }

  /** Fan-out, one copy: incremental patching turns the frame round, addresses
      it and keeps the residues of both sums. A copy is accepted exactly when
      the incoming IP header was in order and either the incoming UDP sum verified
      or the patched field happens to be zero. */
  lemma SlowFrameDelivers(f: seq<Byte>, a: Addr)
    requires HeadersOk(f) && NoIpOptions(f) && WellSized(f)
    ensures Rewritten(f, SlowFrame(f, a), a)
    ensures HeadersOk(SlowFrame(f, a)) && NoIpOptions(SlowFrame(f, a)) && WellSized(SlowFrame(f, a))
    ensures Cong(IpSum(SlowFrame(f, a)), IpSum(f)) && Cong(UdpSum(SlowFrame(f, a)), UdpSum(f))
    ensures SumsValid(SlowFrame(f, a)) <==> SumsValid(f)
    ensures Delivered(f, SlowFrame(f, a), a)
            <==> IpSized(f) && Cong(IpSum(f), 0) && (Cong(UdpSum(f), 0) || Le16(SlowFrame(f, a), UDP_CHECK) == 0)
    ensures Le16(f, DPORT) != 0 ==> (Le16(SlowFrame(f, a), UDP_CHECK) == 0 <==> SlowUnchecked(f, a))
  {
    hide SlowFrame, Residue, IpSum, UdpSumTo, Accepts, Rewritten, SlowUnchecked;
    SlowFrameEffect(f, a, UDP + UdpLen(f));
    KeptHeader(f, SlowFrame(f, a), a);
    ValidIff(f);
    ValidIff(SlowFrame(f, a));
    if Le16(f, DPORT) != 0 {
      SlowCheckZeroIff(f, a);
    }
  }

  /** What the previous subscriber left behind does not matter: readdressing
      an already addressed frame gives, byte for byte, the frame that
      readdressing the turned-round original gives. */
  lemma ReaddressForgets(g: seq<Byte>, a: Addr, b: Addr)
    requires HeadersOk(g) && Settled(g)
    ensures Readdress(Readdress(g, a), b) == Readdress(g, b)
  {
    var h := Readdress(g, a);
    ReaddressEffect(g, a, PAYLOAD);
    ReaddressEffect(h, b, PAYLOAD);
    ReaddressEffect(g, b, PAYLOAD);
    SameReaddressed(g, h, Readdress(h, b), Readdress(g, b), a, b);
    EqualByResidue(Readdress(h, b), Readdress(g, b), PAYLOAD);
  }

  lemma SameReaddressed(g: seq<Byte>, h: seq<Byte>, i: seq<Byte>, j: seq<Byte>, a: Addr, b: Addr)
    requires |g| >= PAYLOAD && Readdressed(g, h, a) && Readdressed(h, i, b) && Readdressed(g, j, b)
    ensures SameButChecksums(i, j)
  {
    hide Le16, Le32;
    SameWord(i, j, DPORT, DPORT);
    SameAddress(i, j, DADDR, DADDR);
  }

  // -------------------------------------------------- full recomputation

  /** Words the UDP loop reads: it stops at its own bound, at the end of the
      frame, and once the byte count reaches the UDP length. */
  function HostWords(f: seq<Byte>, maxWords: nat): nat
    requires HeadersOk(f)
  {
    var inFrame, inUdp := (|f| - UDP) / 2, (UdpLen(f) + 1) / 2;
    if maxWords <= inFrame && maxWords <= inUdp then maxWords
    else if inFrame <= inUdp then inFrame else inUdp
  }

  /** For an odd length the next byte is added as a high half. */
  function HostTail(f: seq<Byte>, maxWords: nat): nat
    requires HeadersOk(f)
  {
    var at := UDP + 2 * HostWords(f, maxWords);
    if UdpLen(f) % 2 == 1 && at < |f| then 0x100 * f[at] as int else 0
  }

  /** The 32-bit sum `compute_udp_checksum` arrives at before folding. */
  function HostUdpSum(f: seq<Byte>, maxWords: nat): nat
    requires HeadersOk(f)
  {
    UdpSumTo(f, UDP + 2 * HostWords(f, maxWords)) + HostTail(f, maxWords)
  }

  lemma HostUdpSumBound(f: seq<Byte>, maxWords: nat)
    requires HeadersOk(f) && maxWords <= 0x400
    ensures 0 < HostUdpSum(f, maxWords) < 0x1_0000_0000
  {
    var end := UDP + 2 * HostWords(f, maxWords);
    LeSumBound(f[SADDR..UDP]);
    LeSumBound(f[UDP..end]);
  }

  lemma IpSumBound(f: seq<Byte>)
    requires HeadersOk(f)
    ensures 0 < IpSum(f) < 0x1_0000_0000
  {
    LeSumBound(f[IP..UDP]);
    LeSumPositive(f[IP..UDP], PROTOCOL - IP);
  }

  function RecomputeIp(f: seq<Byte>): (r: seq<Byte>)
    requires HeadersOk(f)
    ensures |r| == |f| && HeadersOk(r)
  {
    var z := Put16(f, IP_CHECK, 0);
    IpSumBound(z);
    Put16(z, IP_CHECK, Finish(IpSum(z)))
  }

  function RecomputeUdp(f: seq<Byte>, maxWords: nat): (r: seq<Byte>)
    requires HeadersOk(f) && maxWords <= 0x400
    ensures |r| == |f| && HeadersOk(r)
  {
    var z := Put16(f, UDP_CHECK, 0);
    HostUdpSumBound(z, maxWords);
    Put16(z, UDP_CHECK, Finish(HostUdpSum(z, maxWords)))
  }

  function FastFrame(f: seq<Byte>, a: Addr, maxWords: nat): (r: seq<Byte>)
    requires HeadersOk(f) && maxWords <= 0x400
    ensures |r| == |f|
  {
    var g := SwapMacs(f);
    var h := Put32(Put32(g, SADDR, Le32(g, DADDR)), DADDR, a.ip);
    var i := RecomputeIp(h);
    var j := Put16(Put16(i, SPORT, Le16(i, DPORT)), DPORT, a.port);
    RecomputeUdp(j, maxWords)
  }

  /** The host's sum depends only on the length field and the bytes it reads,
      so on frames of one length with one UDP length it differs from the sum
      to the same end by the same tail. */
  lemma HostSumSplits(f: seq<Byte>, g: seq<Byte>, maxWords: nat)
    requires HeadersOk(f) && HeadersOk(g) && |f| == |g| && 8 <= UdpLen(f) && 4 <= maxWords
    requires forall k :: UDP_LEN <= k < |f| && !InChecksum(k) ==> g[k] == f[k]
    ensures UdpLen(g) == UdpLen(f) && HostWords(g, maxWords) == HostWords(f, maxWords) >= 4
    ensures HostTail(g, maxWords) == HostTail(f, maxWords)
  {
    assert g[UDP_LEN] == f[UDP_LEN] && g[UDP_LEN + 1] == f[UDP_LEN + 1];
  }

  /** The rewriting before the UDP checksum, store by store. */
  lemma FastFrameChain(f: seq<Byte>, m: seq<Byte>, n: seq<Byte>, h: seq<Byte>, i: seq<Byte>, i1: seq<Byte>,
                       j: seq<Byte>, g: seq<Byte>, a: Addr)
    requires |f| == |m| == |n| == |h| == |i| >= PAYLOAD && |g| == |j|
    requires m == SwapMacs(f)
    requires Le32(n, SADDR) == Le32(m, DADDR) && forall k :: 0 <= k < |f| && !(SADDR <= k < DADDR) ==> n[k] == m[k]
    requires Le32(h, DADDR) == a.ip && forall k :: 0 <= k < |f| && !(DADDR <= k < UDP) ==> h[k] == n[k]
    requires forall k :: 0 <= k < |f| && !InChecksum(k) ==> i[k] == h[k]
    requires Stored(i, i1, SPORT, Le16(i, DPORT)) && Stored(i1, j, DPORT, a.port)
    requires forall k :: 0 <= k < |f| && !InChecksum(k) ==> g[k] == j[k]
    ensures Rewritten(f, g, a)
  {
    hide Le16, Le32;
    assert forall k :: 0 <= k < 12 ==> g[k] == m[k];
    assert forall k :: H_PROTO <= k < |f| ==> m[k] == f[k];
    SameAddress(n, m, SADDR, DADDR);
    AddressOfBytes(g, h, DADDR);
    PortOfBytes(g, j, DPORT);
    SameWord(i1, i, SPORT, DPORT);
    assert g[SPORT] == f[DPORT] && g[SPORT + 1] == f[DPORT + 1];
  }

  lemma FastFrameEffect(f: seq<Byte>, a: Addr, maxWords: nat)
    requires HeadersOk(f) && 8 <= UdpLen(f) && 4 <= maxWords <= 0x400
    ensures var g := FastFrame(f, a, maxWords);
            HeadersOk(g) && Rewritten(f, g, a) &&
            Le16(g, IP_CHECK) != 0xFFFF && Le16(g, UDP_CHECK) != 0xFFFF &&
            Cong(IpSum(g), 0) && Cong(HostUdpSum(g, maxWords), 0)
  {
    hide Residue, IpSum, UdpSumTo, Put16, Put32, RecomputeIp, RecomputeUdp, HostUdpSum;
    var m := SwapMacs(f);
    var n := Put32(m, SADDR, Le32(m, DADDR));
    var h := Put32(n, DADDR, a.ip);
    SwapMacsEffect(f, PAYLOAD);
    PutStores32(m, SADDR, Le32(m, DADDR));
    PutStores32(n, DADDR, a.ip);
    RecomputeIpEffect(h);
    var i := RecomputeIp(h);
    var i1 := Put16(i, SPORT, Le16(i, DPORT));
    var j := Put16(i1, DPORT, a.port);
    PutStores(i, SPORT, Le16(i, DPORT));
    PutStores(i1, DPORT, a.port);
    StoreEffects(i, i1, SPORT, Le16(i, DPORT), PAYLOAD);
    StoreEffects(i1, j, DPORT, a.port, PAYLOAD);
    RecomputeUdpEffect(j, maxWords) by { assert j[UDP_LEN] == f[UDP_LEN] && j[UDP_LEN + 1] == f[UDP_LEN + 1]; }
    FastFrameChain(f, m, n, h, i, i1, j, RecomputeUdp(j, maxWords), a);
  }

  lemma RecomputeIpEffect(f: seq<Byte>)
    requires HeadersOk(f)
    ensures var g := RecomputeIp(f);
            Cong(IpSum(g), 0) && Le16(g, IP_CHECK) != 0xFFFF &&
            forall k :: 0 <= k < |f| && !InChecksum(k) ==> g[k] == f[k]
  {
    hide Residue, Finish, IpSum;
    var z := Put16(f, IP_CHECK, 0);
    PutStores(f, IP_CHECK, 0);
    IpSumBound(z);
    FinishCong(IpSum(z));
    PutStores(z, IP_CHECK, Finish(IpSum(z)));
    StoreEffects(z, RecomputeIp(f), IP_CHECK, Finish(IpSum(z)), PAYLOAD);
  }

  lemma RecomputeUdpEffect(f: seq<Byte>, maxWords: nat)
    requires HeadersOk(f) && 8 <= UdpLen(f) && 4 <= maxWords <= 0x400
    ensures var g := RecomputeUdp(f, maxWords);
            Cong(HostUdpSum(g, maxWords), 0) && Le16(g, UDP_CHECK) != 0xFFFF && IpSum(g) == IpSum(f) &&
            Le16(g, IP_CHECK) == Le16(f, IP_CHECK) &&
            forall k :: 0 <= k < |f| && !InChecksum(k) ==> g[k] == f[k]
  {
    hide Residue, Finish, IpSum, UdpSumTo;
    var z := Put16(f, UDP_CHECK, 0);
    PutStores(f, UDP_CHECK, 0);
    StoreEffects(f, z, UDP_CHECK, 0, PAYLOAD);
    HostUdpSumBound(z, maxWords);
    var c := Finish(HostUdpSum(z, maxWords));
    var g := Put16(z, UDP_CHECK, c);
    FinishCong(HostUdpSum(z, maxWords));
    PutStores(z, UDP_CHECK, c);
    HostSumSplits(z, g, maxWords);
    StoreEffects(z, g, UDP_CHECK, c, UDP + 2 * HostWords(z, maxWords));
  }

  // ---------------------------------------------- when recomputation is right

  /** What the UDP loop leaves out or adds amounts to nothing: always for an
      even length within the loop's reach; for an odd one only when the bytes
      that are read in the wrong half or past the segment are zero; beyond the
      loop's reach only when the unread words sum to a multiple of 65535. */
  predicate HarmlessTail(f: seq<Byte>, maxWords: nat)
    requires HeadersOk(f) && WellSized(f)
  {
    var len, end, reach := UdpLen(f), UDP + UdpLen(f), UDP + 2 * maxWords;
    if len > 2 * maxWords then
      Cong(LeSum(f[reach..end]), if len % 2 == 1 then 0x100 * f[reach] as int else 0)
    else if len % 2 == 0 then true
    else if |f| == end then f[end - 1] == 0
    else f[end] == 0 && (|f| > end + 1 ==> f[end + 1] == 0)
  }

  lemma SumSplit(f: seq<Byte>, mid: nat, end: nat)
    requires HeadersOk(f) && UDP <= mid <= end <= |f| && (mid - UDP) % 2 == 0
    ensures UdpSumTo(f, end) == UdpSumTo(f, mid) + LeSum(f[mid..end])
  {
    assert f[UDP..end] == f[UDP..mid] + f[mid..end];
    LeSumConcat(f[UDP..mid], f[mid..end]);
  }

  lemma HostSumIsRight(f: seq<Byte>, maxWords: nat)
    requires HeadersOk(f) && WellSized(f) && 4 <= maxWords
    ensures Cong(HostUdpSum(f, maxWords), UdpSum(f)) <==> HarmlessTail(f, maxWords)
    ensures UdpLen(f) % 2 == 0 && UdpLen(f) <= 2 * maxWords ==> HostUdpSum(f, maxWords) == UdpSum(f)
  {
    hide Residue, UdpSumTo;
    if UdpLen(f) > 2 * maxWords {
      var at := UDP + 2 * maxWords;
      SumSplit(f, at, UDP + UdpLen(f));
      CongShift(UdpSumTo(f, at), HostTail(f, maxWords), LeSum(f[at..UDP + UdpLen(f)]));
    } else if UdpLen(f) % 2 == 1 {
      OddHostSum(f, maxWords);
    }
  }

  lemma OddHostSum(f: seq<Byte>, maxWords: nat)
    requires HeadersOk(f) && WellSized(f) && 4 <= maxWords
    requires UdpLen(f) % 2 == 1 && UdpLen(f) <= 2 * maxWords
    ensures Cong(HostUdpSum(f, maxWords), UdpSum(f)) <==> HarmlessTail(f, maxWords)
  {
    hide Residue, UdpSumTo;
    var end: int := UDP + UdpLen(f);
    var last: int := f[end - 1];
    SumSplit(f, end - 1, end);
    assert f[end - 1..end] == [last];
    if |f| == end {
      assert HostWords(f, maxWords) == (UdpLen(f) - 1) / 2;
      CongShift(UdpSumTo(f, end - 1), 0x100 * last, last);
      SmallByte(last);
    } else {
      assert HostWords(f, maxWords) == (UdpLen(f) + 1) / 2;
      SumSplit(f, end - 1, end + 1);
      LeSumWord(f[end - 1..end + 1]);
      var pad: int, extra: int := f[end], if |f| > end + 1 then f[end + 1] else 0;
      assert HostUdpSum(f, maxWords) == UdpSum(f) + (0x100 * pad + 0x100 * extra);
      CongShift(UdpSum(f), 0x100 * pad + 0x100 * extra, 0);
      SmallPair(pad, extra);
    }
  }

  lemma CongShift(base: int, x: int, y: int)
    ensures Cong(base + x, base + y) <==> Cong(x, y)
  {
    if Cong(x, y) {
      CongAdd(x, y, base);
    }
    if Cong(base + x, base + y) {
      CongAdd(base + x, base + y, -base);
    }
  }

  lemma SmallByte(b: Byte)
    ensures Cong(0x100 * b as int, b) <==> b == 0
  {
  }

  lemma SmallPair(b: Byte, c: Byte)
    ensures Cong(0x100 * b as int + 0x100 * c as int, 0) <==> b == 0 && c == 0
  {
    // 256 * (b + c) < 2 * 65535, and 65535 is odd.
    var t: int := 0x100 * b as int + 0x100 * c as int;
    assert t < 0x1_FFFE + 0x100;
  }

  /** The recomputed copy for `a` leaves with a UDP field of zero: its sum, as
      the program takes it, is already a multiple of 65535. RFC 768 has such a
      checksum sent as all ones; the programs store the zero. */
  predicate FastUnchecked(f: seq<Byte>, a: Addr, maxWords: nat)
    requires HeadersOk(f) && 8 <= UdpLen(f) && 4 <= maxWords
  {
    Cong(BareUdpSum(f, a, UDP + 2 * HostWords(f, maxWords)) + HostTail(f, maxWords), 0)
  }

  /** When a recomputed copy tells its receiver not to check it. */
  lemma FastCheckZeroIff(f: seq<Byte>, a: Addr, maxWords: nat)
    requires HeadersOk(f) && 8 <= UdpLen(f) && 4 <= maxWords <= 0x400
    ensures Le16(FastFrame(f, a, maxWords), UDP_CHECK) == 0 <==> FastUnchecked(f, a, maxWords)
    ensures Le16(FastFrame(f, a, maxWords), UDP_CHECK) != 0xFFFF
  {
    hide FastFrame, Residue, UdpSumTo, BareUdpSum, Rewritten;
    var g := FastFrame(f, a, maxWords);
    var end, tail := UDP + 2 * HostWords(f, maxWords), HostTail(f, maxWords);
    FastFrameEffect(f, a, maxWords);
    TailBytesKept(f, g, a);
    HostSumSplits(f, g, maxWords);
    BareSumOfCopy(f, g, a, end);
    ZeroWordIff(HostUdpSum(g, maxWords), BareUdpSum(f, a, end) + tail, Le16(g, UDP_CHECK));
  }

  lemma TailBytesKept(f: seq<Byte>, g: seq<Byte>, a: Addr)
    requires HeadersOk(f) && Rewritten(f, g, a)
    ensures forall k :: UDP_LEN <= k < |f| && !InChecksum(k) ==> g[k] == f[k]
  {
  }

  /** Full recomputation, one copy: turned round and addressed like the slow
      copy, its IP header always verifies. It is accepted exactly when the
      loop's mistake is harmless or its UDP field came out as zero. */
  lemma FastFrameDelivers(f: seq<Byte>, a: Addr, maxWords: nat)
    requires HeadersOk(f) && NoIpOptions(f) && WellSized(f) && 4 <= maxWords <= 0x400
    ensures Rewritten(f, FastFrame(f, a, maxWords), a)
    ensures HeadersOk(FastFrame(f, a, maxWords)) && NoIpOptions(FastFrame(f, a, maxWords))
    ensures Accepts(IpCovered(FastFrame(f, a, maxWords)))
    ensures SumsValid(FastFrame(f, a, maxWords)) <==> IpSized(f) && HarmlessTail(f, maxWords)
    ensures Delivered(f, FastFrame(f, a, maxWords), a)
            <==> IpSized(f) && (HarmlessTail(f, maxWords) || FastUnchecked(f, a, maxWords))
  {
    hide Residue, UdpSumTo, FastFrame, HostUdpSum, HarmlessTail, FastUnchecked;
    var g := FastFrame(f, a, maxWords);
    FastFrameEffect(f, a, maxWords);
    FastCheckZeroIff(f, a, maxWords);
    KeptHeader(f, g, a);
    ValidIff(g);
    HostSumIsRight(g, maxWords);
    TailUnchanged(f, g, a, maxWords);
    CoveredSums(g);
    AcceptsIff(IpCovered(g));
  }

  lemma TailUnchanged(f: seq<Byte>, g: seq<Byte>, a: Addr, maxWords: nat)
    requires HeadersOk(f) && HeadersOk(g) && WellSized(f) && 4 <= maxWords
    requires UdpLen(g) == UdpLen(f) && Rewritten(f, g, a)
    ensures HarmlessTail(g, maxWords) <==> HarmlessTail(f, maxWords)
  {
    var reach, end := UDP + 2 * maxWords, UDP + UdpLen(f);
    if end > reach {
      assert g[reach..end] == f[reach..end];
    }
  }

  /** The two paths, one subscriber: the recomputed copy and the patched copy
      are the same bytes exactly when the incoming frame's IP sum and the sum
      the recomputation takes of its UDP part are both multiples of 65535.
      No case is left where they are merely congruent. */
  lemma FastEqualsSlowIff(f: seq<Byte>, a: Addr, maxWords: nat)
    requires HeadersOk(f) && 8 <= UdpLen(f) && 4 <= maxWords <= 0x400
    requires Le16(f, DPORT) != 0
    ensures FastFrame(f, a, maxWords) == SlowFrame(f, a)
            <==> Cong(IpSum(f), 0) && Cong(HostUdpSum(f, maxWords), 0)
  {
    hide FastFrame, SlowFrame, Residue;
    FastFrameEffect(f, a, maxWords);
    SlowFrameEffect(f, a, UDP + 2 * HostWords(f, maxWords));
    EqualCopies(f, FastFrame(f, a, maxWords), SlowFrame(f, a), a, maxWords);
  }

  lemma EqualCopies(f: seq<Byte>, g: seq<Byte>, h: seq<Byte>, a: Addr, maxWords: nat)
    requires HeadersOk(f) && HeadersOk(g) && HeadersOk(h) && 8 <= UdpLen(f) && 4 <= maxWords
    requires Rewritten(f, g, a) && Rewritten(f, h, a)
    requires SameResidues(f, h, UDP + 2 * HostWords(f, maxWords))
    requires Cong(IpSum(g), 0) && Cong(HostUdpSum(g, maxWords), 0)
    requires Le16(g, IP_CHECK) != 0xFFFF && Le16(h, IP_CHECK) != 0xFFFF
    requires Le16(g, UDP_CHECK) != 0xFFFF && Le16(h, UDP_CHECK) != 0xFFFF
    ensures g == h <==> Cong(IpSum(f), 0) && Cong(HostUdpSum(f, maxWords), 0)
  {
    hide Residue, IpSum, UdpSumTo;
    var end, tail := UDP + 2 * HostWords(f, maxWords), HostTail(f, maxWords);
    RewrittenDetermines(f, g, h, a);
    HostSumSplits(f, g, maxWords);
    EqualByResidue(g, h, end);
    CongShift(tail, UdpSumTo(g, end), UdpSumTo(f, end));
  }

  /** For frames whose sums verify the only reason left is the tail. */
  lemma FastEqualsSlowOnValid(f: seq<Byte>, a: Addr, maxWords: nat)
    requires SumsValid(f) && 4 <= maxWords <= 0x400 && Le16(f, DPORT) != 0
    ensures FastFrame(f, a, maxWords) == SlowFrame(f, a) <==> HarmlessTail(f, maxWords)
  {
    ValidIff(f);
    HostSumIsRight(f, maxWords);
    FastEqualsSlowIff(f, a, maxWords);
  }
}
