/** The two hooks in sequence: a frame goes through `xdp_broker` and, if that
    passes it on, through `tc_ingress_broker`.  In every state the daemon can
    reach, the cached fast path sends what the general path would have sent. */
module Refinement {
  import opened Enumeration
  import opened Words
  import opened Checksum
  import opened Frame
  import opened Forwarding
  import opened TopicKey
  import opened PacketOps
  import opened Kernel
  import opened Daemon

  /** The sums the fast path's recomputation silently relies on. */
  predicate SumsVerify(f: seq<Byte>)
    requires HeadersOk(f)
  {
    Cong(IpSum(f), 0) && Cong(HostUdpSum(f, UDP_WORDS), 0)
  }

  /** Fewer than 2^32 subscriptions to the published topic since its last flush. */
  predicate NoCounterWrap(ops: seq<Op>, f: seq<Byte>) {
    PublishKey(f).Some? ==> |Since(ops, PublishKey(f).value)| < 0x1_0000_0000
  }

  lemma OnlyOrder<T>(order: seq<T>, p: T)
    requires Enumerates(order, {p})
    ensures order == [p]
  {
    EnumerationSize(order, {p});
    assert order[0] in order;
  }

  /** Between commands the fast path never drops, takes over exactly for a topic
      with one accepted subscription since its last flush, for which the cached
      subscriber is the whole set, and its frame is the general path's frame
      exactly when the incoming sums verify. */
  lemma FastPathRefines(ops: seq<Op>, f: seq<Byte>)
    requires NoCounterWrap(ops, f)
    ensures var s := Run(ops);
            match Decide(s.count, s.first, f)
            case ToStack => PublishKey(f).Some? ==> |Since(ops, PublishKey(f).value)| != 1
            case Discard => false
            case Forward(p) =>
              var k := PublishKey(f);
              k.Some? && Since(ops, k.value) == [p] && k.value in s.subs && s.subs[k.value] == {p} &&
              (forall order :: Enumerates(order, s.subs[k.value]) ==> order == [p]) &&
              (8 <= UdpLen(f) ==>
                Rewritten(f, FastFrame(f, Unpack(p), UDP_WORDS), Unpack(p)) &&
                ([FastFrame(f, Unpack(p), UDP_WORDS)] == Copies(f, [p]) <==> SumsVerify(f)))
  {
    hide Run, Since, FastFrame, Rewritten, SlowFrame, HostUdpSum, IpSum, Residue;
    var s, k := Run(ops), PublishKey(f);
    if k.Some? {
      CacheIsSound(ops, k.value);
      if k.value in s.count && s.count[k.value] == 1 {
        var p := s.first[k.value];
        forall order | Enumerates(order, {p}) ensures order == [p] {
          OnlyOrder(order, p);
        }
        if 8 <= UdpLen(f) {
          FastFrameEffect(f, Unpack(p), UDP_WORDS);
          assert Le16(f, DPORT) != 0;
          FastEqualsSlowIff(f, Unpack(p), UDP_WORDS);
          var fast := FastFrame(f, Unpack(p), UDP_WORDS);
          assert Copies(f, [p]) == [SlowFrame(f, Unpack(p))];
          assert [fast][0] == fast && Copies(f, [p])[0] == SlowFrame(f, Unpack(p));
        }
      }
    }
  }

  lemma CopiesRewritten(f: seq<Byte>, order: seq<U64>)
    requires HeadersOk(f)
    ensures forall i :: 0 <= i < |order| ==> Rewritten(f, Copies(f, order)[i], Unpack(order[i]))
  {
    hide Rewritten, SlowFrame;
    forall i | 0 <= i < |order| ensures Rewritten(f, Copies(f, order)[i], Unpack(order[i])) {
      SlowFrameEffect(f, Unpack(order[i]), PAYLOAD);
    }
  }

  lemma OneEnumerated<T>(p: T)
    ensures Enumerates([p], {p})
  {
  }

  lemma AddManyTwice(c: U32)
    ensures AddMany(c, 0) == c && AddMany(c, 1) == Add32(c, 1) && AddMany(c, 2) == Add32(Add32(c, 1), 1)
  {
  }

  lemma AddManyMore(w: nat, n: nat)
    ensures AddMany(AddMany(0, w), n) == AddMany(0, w + n)
  {
  }

  /** A frame arriving at the interface, in a state the daemon reached by
      `ops`: whichever hook handles it, each subscriber of its topic gets one
      copy, and the copies are those of the general path. */
  method Receive(kernel: KernelPrograms, pkt: array<Byte>, ghost ops: seq<Op>)
    returns (taken: bool, ghost order: seq<U64>)
    requires State(kernel.maps.subs, kernel.maps.count, kernel.maps.first) == Run(ops)
    requires NoCounterWrap(ops, pkt[..])
    modifies kernel, pkt
    ensures taken <==> PublishKey(old(pkt[..])).Some? && PublishKey(old(pkt[..])).value in kernel.maps.subs
    ensures forall t :: PublishesTo(old(pkt[..]), t) ==> (taken <==> PortBytes(old(pkt[..])) && Pad(t) in kernel.maps.subs)
    ensures !taken ==> kernel.wire == old(kernel.wire) && pkt[..] == old(pkt[..])
    ensures taken ==> Enumerates(order, kernel.maps.subs[PublishKey(old(pkt[..])).value])
    ensures taken ==> |kernel.wire| == |old(kernel.wire)| + |order| && old(kernel.wire) <= kernel.wire
    ensures taken ==> kernel.cloneCounter == AddMany(old(kernel.cloneCounter), |order|)
    ensures old(kernel.cloneCounter) == AddMany(0, |old(kernel.wire)|) ==> kernel.cloneCounter == AddMany(0, |kernel.wire|)
    ensures taken && 8 <= UdpLen(old(pkt[..])) ==>
              var f := old(pkt[..]);
              var sent := kernel.wire[|old(kernel.wire)|..];
              (forall i :: 0 <= i < |order| ==> Rewritten(f, sent[i], Unpack(order[i]))) &&
              (sent == Copies(f, order) <==> (Decide(kernel.maps.count, kernel.maps.first, f).Forward? ==> SumsVerify(f)))
    ensures kernel.pubCounter == AddMany(old(kernel.pubCounter),
              if !PublishToBroker(old(pkt[..])) then 0
              else if Decide(kernel.maps.count, kernel.maps.first, old(pkt[..])).Forward? then 1 else 2)
  {
    hide Run, Since, FastFrame, Rewritten, SlowFrame, SumsVerify, KernelKey, Copies, IsPublish, ToBrokerPort, Enumerates, PublishBytes;
    ghost var f := pkt[..];
    ghost var wire := kernel.wire;
    FastPathRefines(ops, f);
    AddManyTwice(kernel.pubCounter);
    AddManyTwice(kernel.cloneCounter);
    hide AddMany, Add32;
    var verdict := kernel.XdpBroker(pkt);
    if verdict == Pass {
      var tc;
      tc, order := kernel.TcIngressBroker(pkt);
      taken := tc == Shot;
      if taken {
        CopiesRewritten(f, order);
        assert kernel.wire[|wire|..] == Copies(f, order);
      }
    } else {
      taken := true;
      order := [Decide(kernel.maps.count, kernel.maps.first, f).packed];
      OneEnumerated(order[0]);
      assert kernel.wire[|wire|..] == [FastFrame(f, Unpack(order[0]), UDP_WORDS)];
    }
    AddManyMore(|wire|, |order|);
    KeyOnPorts(f);
  }

  /** What reaches a subscriber of an accepted frame, path by path. Patching
      loses a frame that came without a UDP checksum, unless the patched field
      is zero again; recomputing loses a frame whose tail it misreads, unless
      the field comes out as zero. With verifying sums and an even UDP length up
      to 256 both deliver, and deliver the same bytes. */
  lemma BothPathsDeliver(f: seq<Byte>, a: Addr)
    requires ChecksumsValid(f) && ToBrokerPort(f)
    ensures Delivered(f, SlowFrame(f, a), a) <==> Cong(UdpSum(f), 0) || SlowUnchecked(f, a)
    ensures Delivered(f, FastFrame(f, a, UDP_WORDS), a) <==> HarmlessTail(f, UDP_WORDS) || FastUnchecked(f, a, UDP_WORDS)
    ensures SumsValid(f) ==> (FastFrame(f, a, UDP_WORDS) == SlowFrame(f, a) <==> HarmlessTail(f, UDP_WORDS))
    ensures UdpLen(f) % 2 == 0 && UdpLen(f) <= 256 ==> HarmlessTail(f, UDP_WORDS)
  {
    hide FastFrame, SlowFrame, Residue, Accepts, IpSum, UdpSumTo, Rewritten, SlowUnchecked, FastUnchecked;
    SlowFrameDelivers(f, a);
    FastFrameDelivers(f, a, UDP_WORDS);
    ValidIff(f);
    assert Le16(f, DPORT) != 0;
    if SumsValid(f) {
      FastEqualsSlowOnValid(f, a, UDP_WORDS);
    }
  }
}
