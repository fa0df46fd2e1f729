/** `bpf_broker_kern.c`: the XDP fast path and the TC fan-out. */
module Kernel {
  import opened Words
  import opened Checksum
  import opened Frame
  import opened Forwarding
  import opened TopicKey
  import opened PacketOps
  import opened Maps
  import opened Enumeration

  const UDP_WORDS: nat := 128

  datatype Verdict = Pass | Drop | Tx
  datatype TcVerdict = Ok | Shot

  /** The frames the fan-out puts on the wire, one per subscriber visited,
      each a function of the incoming frame and that subscriber alone. */
  function Copies(f: seq<Byte>, order: seq<U64>): (r: seq<seq<Byte>>)
    requires |f| >= PAYLOAD
    ensures |r| == |order|
  {
    seq(|order|, i requires 0 <= i < |order| => SlowFrame(f, Unpack(order[i])))
  }

  /** A 32-bit counter after `n` increments. */
  function AddMany(c: U32, n: nat): U32 {
    (c + n) % 0x1_0000_0000
  }

  /** What `xdp_broker` decides from the maps alone. */
  datatype Decision = ToStack | Discard | Forward(packed: U64)

  function Decide(count: map<Key, U32>, first: map<Key, U64>, f: seq<Byte>): Decision {
    match PublishKey(f)
    case None => ToStack
    case Some(k) =>
      if k !in count || count[k] != 1 then ToStack
      else if k !in first then Discard
      else Forward(first[k])
  }

  /** The fast path on a frame that publishes to `t`: taken on each of the
      sixteen ports and on no other, if the count of `t` is 1. */
  lemma DecideOnPorts(count: map<Key, U32>, first: map<Key, U64>, f: seq<Byte>, t: seq<Byte>)
    requires PublishesTo(f, t)
    ensures Decide(count, first, f) ==
              if !PortBytes(f) || Pad(t) !in count || count[Pad(t)] != 1 then ToStack
              else if Pad(t) in first then Forward(first[Pad(t)]) else Discard
  {
    PublishesToKey(f, t);
  }

  class KernelPrograms {
    const maps: SharedMaps
    var pubCounter: U32
    var cloneCounter: U32
    var wire: seq<seq<Byte>>   // frames transmitted, in order

    constructor (maps: SharedMaps)
      ensures this.maps == maps && pubCounter == 0 && cloneCounter == 0 && wire == []
    {
      this.maps := maps;
      pubCounter, cloneCounter, wire := 0, 0, [];
    }

    /** One subscriber: patch the packet in place, clone it to the wire. */
    method CallbackFn(pkt: array<Byte>, packed: U64)
      requires HeadersOk(pkt[..])
      modifies this`wire, this`cloneCounter, pkt
      ensures pkt[..] == Readdress(old(pkt[..]), Unpack(packed)) && HeadersOk(pkt[..])
      ensures wire == old(wire) + [pkt[..]]
      ensures cloneCounter == Add32(old(cloneCounter), 1)
    {
      ghost var f := pkt[..];
      var destIp: U32 := packed / 0x1_0000_0000;
      var destPort: U16 := packed / 0x1_0000 % 0x1_0000;
      ReaddressEffect(f, Unpack(packed), PAYLOAD);
      PatchAddressInPlace(pkt, DADDR, destIp);
      PatchPortInPlace(pkt, DPORT, destPort);
      wire := wire + [pkt[..]];
      cloneCounter := Add32(cloneCounter, 1);
    }

    method TcIngressBroker(pkt: array<Byte>) returns (verdict: TcVerdict, ghost order: seq<U64>)
      modifies this`wire, this`cloneCounter, this`pubCounter, pkt
      ensures pubCounter == if PublishToBroker(old(pkt[..])) then Add32(old(pubCounter), 1) else old(pubCounter)
      ensures var f := old(pkt[..]);
              var k := PublishKey(f);
              if k.Some? && k.value in maps.subs then
                verdict == Shot && Enumerates(order, maps.subs[k.value]) &&
                wire == old(wire) + Copies(f, order) && cloneCounter == AddMany(old(cloneCounter), |order|)
              else
                verdict == Ok && order == [] && wire == old(wire) && cloneCounter == old(cloneCounter) && pkt[..] == f
    {
      ghost var f := pkt[..];
      order := [];
      if !HeadersOk(pkt[..]) {
        return Ok, [];
      }
      if !ToBrokerPort(pkt[..]) {
        return Ok, [];
      }
      var publish := StartsWithPublish(pkt);
      if !publish {
        return Ok, [];
      }
      pubCounter := Add32(pubCounter, 1);
      var topicId := new Byte[KEY_SIZE](_ => NUL);
      assert topicId[..] == Zeros(KEY_SIZE);
      var r := ExtractTopicId(pkt, TOPIC, topicId);
      assert pkt[TOPIC..] == f[TOPIC..];
      if r < 0 {
        return Ok, [];
      }
      if topicId[..] !in maps.subs {
        return Ok, [];
      }
      TurnRoundInPlace(pkt);
      order := FanOut(pkt, f, maps.subs[topicId[..]]);
      return Shot, order;
    }

    method TurnRoundInPlace(pkt: array<Byte>)
      requires HeadersOk(pkt[..])
      modifies pkt
      ensures pkt[..] == TurnRound(old(pkt[..]))
    {
      SwapMacsInPlace(pkt);
      PatchAddressInPlace(pkt, SADDR, Le32(pkt[..], DADDR));
      PatchPortInPlace(pkt, SPORT, Le16(pkt[..], DPORT));
    }

    /** `bpf_for_each_map_elem`: any order, each subscriber once, every round
        starting from the packet the previous one left. */
    method FanOut(pkt: array<Byte>, ghost f: seq<Byte>, inner: set<U64>) returns (ghost order: seq<U64>)
      requires HeadersOk(f) && ToBrokerPort(f) && pkt[..] == TurnRound(f)
      modifies this`wire, this`cloneCounter, pkt
      ensures Enumerates(order, inner)
      ensures wire == old(wire) + Copies(f, order) && cloneCounter == AddMany(old(cloneCounter), |order|)
    {
      hide SlowFrame, Readdress, AfterVisits, TurnRound, Copies, AddMany, Enumerates;
      order := [];
      NoVisits(f, inner, cloneCounter);
      var rest := inner;
      while rest != {}
        invariant rest <= inner && Enumerates(order, inner - rest)
        invariant pkt[..] == AfterVisits(f, order)
        invariant wire == old(wire) + Copies(f, order)
        invariant cloneCounter == AddMany(old(cloneCounter), |order|)
        decreases rest
      {
        var packed :| packed in rest;
        NextVisit(f, order, packed);
        OneMoreVisit(f, order, inner, rest, packed, old(cloneCounter));
        CallbackFn(pkt, packed);
        order := order + [packed];
        rest := rest - {packed};
      }
      assert inner - rest == inner;
    }

    method XdpBroker(pkt: array<Byte>) returns (verdict: Verdict)
      modifies this`wire, this`cloneCounter, this`pubCounter, pkt
      ensures pubCounter == if PublishToBroker(old(pkt[..])) then Add32(old(pubCounter), 1) else old(pubCounter)
      ensures match Decide(maps.count, maps.first, old(pkt[..]))
              case ToStack => verdict == Pass && pkt[..] == old(pkt[..]) && wire == old(wire) && cloneCounter == old(cloneCounter)
              case Discard => verdict == Drop && wire == old(wire) && cloneCounter == old(cloneCounter)
              case Forward(p) => verdict == Tx && cloneCounter == Add32(old(cloneCounter), 1) &&
                                 wire == old(wire) + [FastFrame(old(pkt[..]), Unpack(p), UDP_WORDS)]
    {
      hide FastFrame, KernelKey, ToBrokerPort;
      ghost var f := pkt[..];
      if !HeadersOk(pkt[..]) || pkt.Length < PAYLOAD + 1 {
        return Pass;
      }
      if !ToBrokerPort(pkt[..]) {
        return Pass;
      }
      var publish := StartsWithPublish(pkt);
      if !publish {
        return Pass;
      }
      pubCounter := Add32(pubCounter, 1);
      var topicId := new Byte[KEY_SIZE](_ => NUL);
      assert topicId[..] == Zeros(KEY_SIZE);
      var r := ExtractTopicId(pkt, TOPIC, topicId);
      assert pkt[TOPIC..] == f[TOPIC..];
      if r < 0 {
        return Pass;
      }
      if topicId[..] !in maps.count || maps.count[topicId[..]] != 1 {
        return Pass;
      }
      if topicId[..] !in maps.first {
        return Drop;
      }
      RewriteInPlace(pkt, maps.first[topicId[..]], UDP_WORDS);
      cloneCounter := Add32(cloneCounter, 1);
      wire := wire + [pkt[..]];
      return Tx;
    }
  }

  /** What the loop finds in the packet after visiting `order`. */
  function AfterVisits(f: seq<Byte>, order: seq<U64>): seq<Byte>
    requires |f| >= PAYLOAD
  {
    if order == [] then TurnRound(f) else Readdress(TurnRound(f), Unpack(order[|order| - 1]))
  }

  lemma NoVisits(f: seq<Byte>, s: set<U64>, c: U32)
    requires |f| >= PAYLOAD
    ensures Enumerates<U64>([], s - s) && Copies(f, []) == [] && AddMany(c, 0) == c && AfterVisits(f, []) == TurnRound(f)
  {
  }

  lemma OneMoreVisit(f: seq<Byte>, order: seq<U64>, s: set<U64>, rest: set<U64>, p: U64, c: U32)
    requires |f| >= PAYLOAD && p in rest && rest <= s && Enumerates(order, s - rest)
    ensures Enumerates(order + [p], s - (rest - {p}))
    ensures Copies(f, order + [p]) == Copies(f, order) + [SlowFrame(f, Unpack(p))]
    ensures AddMany(c, |order + [p]|) == Add32(AddMany(c, |order|), 1)
  {
    hide SlowFrame;
  }

  /** Whoever was visited before, the next callback leaves the packet as if the
      next subscriber were the only one. */
  lemma NextVisit(f: seq<Byte>, order: seq<U64>, packed: U64)
    requires HeadersOk(f) && Le16(f, DPORT) != 0
    ensures HeadersOk(AfterVisits(f, order))
    ensures Readdress(AfterVisits(f, order), Unpack(packed)) == SlowFrame(f, Unpack(packed))
    ensures AfterVisits(f, order + [packed]) == SlowFrame(f, Unpack(packed))
  {
    hide Readdress, TurnRound, Settled;
    TurnRoundEffect(f, PAYLOAD);
    if order != [] {
      ReaddressEffect(TurnRound(f), Unpack(order[|order| - 1]), PAYLOAD);
      ReaddressForgets(TurnRound(f), Unpack(order[|order| - 1]), Unpack(packed));
    }
  }

  /** Headers rewritten for one subscriber, both checksums from scratch. */
  method RewriteInPlace(pkt: array<Byte>, packed: U64, maxWords: nat)
    requires HeadersOk(pkt[..]) && maxWords <= 0x400
    modifies pkt
    ensures pkt[..] == FastFrame(old(pkt[..]), Unpack(packed), maxWords)
  {
    hide Finish, IpSum, HostUdpSum;
    var destIp: U32 := packed / 0x1_0000_0000;
    var destPort: U16 := packed / 0x1_0000 % 0x1_0000;
    SwapMacsInPlace(pkt);
    Store32(pkt, SADDR, Le32(pkt[..], DADDR));
    Store32(pkt, DADDR, destIp);
    Store16(pkt, IP_CHECK, 0);
    var ipCheck := ComputeIpChecksum(pkt);
    Store16(pkt, IP_CHECK, ipCheck);
    Store16(pkt, SPORT, Le16(pkt[..], DPORT));
    Store16(pkt, DPORT, destPort);
    Store16(pkt, UDP_CHECK, 0);
    var udpCheck := ComputeUdpChecksum(pkt, maxWords);
    Store16(pkt, UDP_CHECK, udpCheck);
  }
}
