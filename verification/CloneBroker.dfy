/** `bpf_broker_xdp`: subscribers in an append-only array with a count, and one
    clone of the PUBLISH per slot below the count. */
module CloneBroker {
  import opened Words
  import opened Frame
  import opened Forwarding
  import opened TopicKey
  import opened PacketOps
  import opened Maps
  import opened Kernel
  import D = Daemon

  const MAX_SUBSCRIBERS: nat := 2048
  const CLONE_UDP_WORDS: nat := 1024

  /** The inner map: an array of 2048 packed addresses, created zeroed. */
  type Slots = s: seq<U64> | |s| == MAX_SUBSCRIBERS witness seq(MAX_SUBSCRIBERS, _ => 0)

  datatype State = State(arrays: map<Key, Slots>, count: map<Key, U32>)

  const EMPTY := State(map[], map[])

  function ZeroSlots(n: nat): (r: seq<U64>)
    ensures |r| == n && forall i :: 0 <= i < n ==> r[i] == 0
  {
    seq(n, _ => 0)
  }

  function CountOf(s: State, k: Key): U32 {
    if k in s.count then s.count[k] else 0
  }

  function AddTopic(s: State, k: Key): State {
    if k in s.arrays || |s.arrays| >= MAX_TOPIC_ID then s else s.(arrays := s.arrays[k := ZeroSlots(MAX_SUBSCRIBERS)])
  }

  function AddSubscriber(s: State, k: Key, p: U64): State {
    if k !in s.arrays || CountOf(s, k) >= MAX_SUBSCRIBERS then s
    else
      var s1 := s.(arrays := s.arrays[k := s.arrays[k][CountOf(s, k) := p]]);
      if D.HasRoom(s.count, k) then s1.(count := s.count[k := CountOf(s, k) + 1]) else s1
  }

  function FlushTopic(s: State, k: Key): State {
    var n := CountOf(s, k);
    if n == 0 || k !in s.arrays then s
    else
      var cleared := if n <= MAX_SUBSCRIBERS then n else MAX_SUBSCRIBERS;
      State(s.arrays[k := ZeroSlots(cleared) + s.arrays[k][cleared..]], s.count[k := 0])
  }

  class CloneMaps {
    var arrays: map<Key, Slots>   // topic_sub_array, with its inner arrays
    var count: map<Key, U32>      // topic_sub_cnt

    constructor ()
      ensures Contents() == EMPTY
    {
      arrays, count := map[], map[];
    }

    function Contents(): State
      reads this
    {
      State(arrays, count)
    }

    /** `created`: the inner map could be made. */
    method AddTopicToMaps(k: Key, created: bool) returns (ret: int)
      modifies this
      ensures Contents() == if created then AddTopic(old(Contents()), k) else old(Contents())
      ensures ret == 0 <==> k in arrays
    {
      if k in arrays {
        return 0;
      }
      if !created {
        return -1;
      }
      if |arrays| >= MAX_TOPIC_ID {
        return -1;
      }
      arrays := arrays[k := ZeroSlots(MAX_SUBSCRIBERS)];
      return 0;
    }

    method AddSubscriberToMaps(k: Key, ip: U32, port: U16) returns (ret: int)
      modifies this
      ensures Contents() == AddSubscriber(old(Contents()), k, D.PackHost(ip, port))
      ensures var s := old(Contents());
              ret == 0 <==> k in s.arrays && CountOf(s, k) < MAX_SUBSCRIBERS && D.HasRoom(s.count, k)
    {
      if k !in arrays {
        return -1;
      }
      var idx: U32 := 0;
      if k in count {
        idx := count[k];
      }
      var packed := D.PackHost(ip, port);
      if idx >= MAX_SUBSCRIBERS {
        return -1;
      }
      arrays := arrays[k := arrays[k][idx := packed]];
      var newCount := idx + 1;
      if k !in count && |count| >= MAX_TOPIC_ID {
        return -1;
      }
      count := count[k := newCount];
      return 0;
    }

    method FlushTopicInMaps(k: Key)
      modifies this
      ensures Contents() == FlushTopic(old(Contents()), k)
    {
      var n: U32 := 0;
      if k in count {
        n := count[k];
      }
      if n == 0 || k !in arrays {
        return;
      }
      for i := 0 to n
        invariant k in arrays && arrays == old(arrays)[k := arrays[k]] && count == old(count)
        invariant forall j :: 0 <= j < MAX_SUBSCRIBERS ==> arrays[k][j] == if j < i then 0 else old(arrays)[k][j]
      {
        if i < MAX_SUBSCRIBERS {
          arrays := arrays[k := arrays[k][i := 0]];
        }
      }
      ghost var cleared := if n <= MAX_SUBSCRIBERS then n else MAX_SUBSCRIBERS;
      assert arrays[k] == ZeroSlots(cleared) + old(arrays)[k][cleared..];
      count := count[k := 0];
    }
  }

  // ---------------------------------------------------------------- runs

  function Apply(s: State, op: D.Op): State {
    match op
    case Register(k) => AddTopic(s, k)
    case Subscribe(k, p) => AddSubscriber(s, k, p)
    case Flush(k) => FlushTopic(s, k)
  }

  function Run(ops: seq<D.Op>): State {
    if ops == [] then EMPTY else Apply(Run(ops[..|ops| - 1]), ops[|ops| - 1])
  }

  /** The subscriptions to `k` since its last flush, in order and with
      repeats, until the array is full. */
  function Since(ops: seq<D.Op>, k: Key): seq<U64> {
    if ops == [] then []
    else
      var before, op := ops[..|ops| - 1], ops[|ops| - 1];
      if op.key != k then Since(before, k)
      else match op
        case Register(_) => Since(before, k)
        case Subscribe(_, p) =>
          if k in Run(before).arrays && |Since(before, k)| < MAX_SUBSCRIBERS then Since(before, k) + [p]
          else Since(before, k)
        case Flush(_) => []
  }

  ghost predicate CountsFit(s: State) {
    |s.arrays| <= MAX_TOPIC_ID && s.count.Keys <= s.arrays.Keys
  }

  /** The array of one topic: its history, then nothing but zeros. */
  ghost predicate Holds(s: State, k: Key, h: seq<U64>) {
    && |h| <= MAX_SUBSCRIBERS
    && CountOf(s, k) == |h|
    && (k !in s.arrays ==> h == [])
    && (k in s.arrays ==> s.arrays[k] == h + ZeroSlots(MAX_SUBSCRIBERS - |h|))
  }

  lemma StepKeepsCounts(s: State, op: D.Op)
    requires CountsFit(s)
    ensures CountsFit(Apply(s, op))
  {
    hide ZeroSlots, D.HasRoom;
    match op
    case Register(k) =>
      if k !in s.arrays {
        var t := s.arrays[k := ZeroSlots(MAX_SUBSCRIBERS)];
        assert t.Keys == s.arrays.Keys + {k};
        assert |t| == |t.Keys| && |s.arrays| == |s.arrays.Keys|;
      }
    case Subscribe(k, p) =>
      if k in s.arrays && CountOf(s, k) < MAX_SUBSCRIBERS {
        D.SameKeys(s.arrays, k, s.arrays[k][CountOf(s, k) := p]);
      }
    case Flush(k) =>
      if k in s.arrays {
        D.SameKeys(s.arrays, k, Apply(s, op).arrays[k]);
      }
  }

  /** The count map has room for a topic whose array exists. */
  lemma RoomForArray(s: State, k: Key)
    requires CountsFit(s) && k in s.arrays
    ensures D.HasRoom(s.count, k)
  {
    if k !in s.count {
      D.ProperSubsetSize(s.count.Keys, s.arrays.Keys, k);
      assert |s.count| == |s.count.Keys| && |s.arrays| == |s.arrays.Keys|;
    }
  }

  lemma SubscribeAppends(s: State, k: Key, p: U64, h: seq<U64>)
    requires CountsFit(s) && Holds(s, k, h) && k in s.arrays && |h| < MAX_SUBSCRIBERS
    ensures Holds(AddSubscriber(s, k, p), k, h + [p])
  {
    RoomForArray(s, k);
    assert s.arrays[k][|h| := p] == h + [p] + ZeroSlots(MAX_SUBSCRIBERS - |h| - 1);
  }

  lemma FlushClears(s: State, k: Key, h: seq<U64>)
    requires Holds(s, k, h)
    ensures Holds(FlushTopic(s, k), k, [])
  {
    if h != [] {
      assert ZeroSlots(|h|) + s.arrays[k][|h|..] == [] + ZeroSlots(MAX_SUBSCRIBERS);
    } else if k in s.arrays {
      assert s.arrays[k] == [] + ZeroSlots(MAX_SUBSCRIBERS);
    }
  }

  /** State refinement, over every run: the array of each topic is its history
      since the last flush followed by zeros, and the count is its length. */
  lemma {:induction false} ArrayHoldsHistory(ops: seq<D.Op>, k: Key)
    ensures CountsFit(Run(ops)) && Holds(Run(ops), k, Since(ops, k))
  {
    if ops != [] {
      hide CountsFit, Holds;
      var before, op := ops[..|ops| - 1], ops[|ops| - 1];
      ArrayHoldsHistory(before, k);
      StepKeepsCounts(Run(before), op);
      HoldsStep(Run(before), op, k, Since(before, k));
    }
  }

  lemma HoldsStep(s: State, op: D.Op, k: Key, h: seq<U64>)
    requires CountsFit(s) && Holds(s, k, h)
    ensures Holds(Apply(s, op), k,
      if op.key != k || op.Register? then h
      else if op.Flush? then []
      else if k in s.arrays && |h| < MAX_SUBSCRIBERS then h + [op.packed] else h)
  {
    if op.key == k {
      match op
      case Register(_) =>
        assert ZeroSlots(MAX_SUBSCRIBERS) == [] + ZeroSlots(MAX_SUBSCRIBERS);
      case Subscribe(_, p) =>
        if k in s.arrays && |h| < MAX_SUBSCRIBERS {
          SubscribeAppends(s, k, p, h);
        }
      case Flush(_) =>
        FlushClears(s, k, h);
    }
  }

  // -------------------------------------------------------------- kernel

  /** XDP return codes; cloning packs the number of copies above the action. */
  const XDP_DROP: nat := 1
  const XDP_PASS: nat := 2
  const XDP_TX: nat := 3
  const XDP_CLONE: nat := 6

  function CloneTx(copies: nat): nat {
    copies * 32 + XDP_CLONE
  }

  lemma CloneTxDecodes(n: nat)
    ensures CloneTx(n) / 32 == n && CloneTx(n) % 32 == XDP_CLONE
  {
  }

  class CloneKernel {
    const maps: CloneMaps
    var pubCounter: U32
    var wire: seq<seq<Byte>>

    constructor (maps: CloneMaps)
      ensures this.maps == maps && pubCounter == 0 && wire == []
    {
      this.maps := maps;
      pubCounter, wire := 0, [];
    }

    /** The original packet: how many clones to make. */
    method XdpOriginal(pkt: array<Byte>) returns (ret: nat)
      modifies this`pubCounter
      ensures forall t :: PublishesTo(pkt[..], t) ==>
                ret == if PortBytes(pkt[..]) && CountOf(maps.Contents(), Pad(t)) > 0 then CloneTx(CountOf(maps.Contents(), Pad(t)))
                       else XDP_PASS
      ensures pubCounter == if PublishToBroker(pkt[..]) then Add32(old(pubCounter), 1) else old(pubCounter)
      ensures var k := PublishKey(pkt[..]);
              ret == if k.Some? && CountOf(maps.Contents(), k.value) > 0 then CloneTx(CountOf(maps.Contents(), k.value)) else XDP_PASS
    {
      KeyOnPorts(pkt[..]);
      hide PublishesTo, PortBytes;
      if !HeadersOk(pkt[..]) || pkt.Length < PAYLOAD + 1 {
        return XDP_PASS;
      }
      if !ToBrokerPort(pkt[..]) {
        return XDP_PASS;
      }
      var publish := StartsWithPublish(pkt);
      if !publish {
        return XDP_PASS;
      }
      pubCounter := Add32(pubCounter, 1);
      var topicId := new Byte[KEY_SIZE](_ => NUL);
      assert topicId[..] == Zeros(KEY_SIZE);
      assert pkt[TOPIC..] == pkt[..][TOPIC..];
      var r := ExtractTopicId(pkt, TOPIC, topicId);
      if r < 0 {
        return XDP_PASS;
      }
      if topicId[..] !in maps.count || maps.count[topicId[..]] == 0 {
        return XDP_PASS;
      }
      return CloneTx(maps.count[topicId[..]]);
    }

    /** Clone number `numCopy`: rewritten for the subscriber in slot
        `numCopy - 1`, or dropped. */
    method XdpClone(pkt: array<Byte>, numCopy: U32) returns (ret: nat)
      modifies this`wire, pkt
      ensures var f := old(pkt[..]);
              var k := PublishKey(f);
              if 1 <= numCopy <= MAX_SUBSCRIBERS && k.Some? && k.value in maps.arrays then
                ret == XDP_TX &&
                wire == old(wire) + [FastFrame(f, Unpack(maps.arrays[k.value][numCopy - 1]), CLONE_UDP_WORDS)]
              else
                ret == XDP_DROP && wire == old(wire)
      ensures forall t :: PublishesTo(old(pkt[..]), t) ==>
                (ret == XDP_TX <==> 1 <= numCopy <= MAX_SUBSCRIBERS && PortBytes(old(pkt[..])) && Pad(t) in maps.arrays)
    {
      ghost var f := pkt[..];
      KeyOnPorts(f);
      hide PublishesTo, PortBytes;
      if numCopy == 0 {
        return XDP_DROP;
      }
      if !HeadersOk(pkt[..]) || pkt.Length < PAYLOAD + 1 {
        return XDP_DROP;
      }
      if !ToBrokerPort(pkt[..]) {
        return XDP_DROP;
      }
      var publish := StartsWithPublish(pkt);
      if !publish {
        return XDP_DROP;
      }
      var topicId := new Byte[KEY_SIZE](_ => NUL);
      assert topicId[..] == Zeros(KEY_SIZE);
      var r := ExtractTopicId(pkt, TOPIC, topicId);
      assert pkt[TOPIC..] == f[TOPIC..];
      if r < 0 {
        return XDP_DROP;
      }
      if topicId[..] !in maps.arrays {
        return XDP_DROP;
      }
      var idx := numCopy - 1;
      if idx >= MAX_SUBSCRIBERS {
        return XDP_DROP;
      }
      hide FastFrame;
      RewriteInPlace(pkt, maps.arrays[topicId[..]][idx], CLONE_UDP_WORDS);
      wire := wire + [pkt[..]];
      return XDP_TX;
    }

    /** Copies 1..n of the original frame, each run through the program. */
    method RunClones(pkt: array<Byte>, n: nat, ghost h: seq<U64>) returns (verdicts: seq<nat>)
      requires PublishKey(pkt[..]).Some? && PublishKey(pkt[..]).value in maps.arrays
      requires n == |h| <= MAX_SUBSCRIBERS && h <= maps.arrays[PublishKey(pkt[..]).value]
      modifies this`wire
      ensures |verdicts| == n && forall v :: v in verdicts ==> v == XDP_TX
      ensures wire == old(wire) + CloneCopies(pkt[..], h)
    {
      hide FastFrame, PublishKey;
      ghost var f := pkt[..];
      assert HeadersOk(f) by {
        PublishKeyHeaders(f);
      }
      verdicts := [];
      for i := 0 to n
        invariant |verdicts| == i && forall v :: v in verdicts ==> v == XDP_TX
        invariant pkt[..] == f && wire == old(wire) + CloneCopies(f, h[..i])
      {
        var copy := new Byte[pkt.Length];
        forall j | 0 <= j < pkt.Length {
          copy[j] := pkt[j];
        }
        assert copy[..] == f;
        var verdict := XdpClone(copy, i + 1);
        CloneCopiesSnoc(f, h, i);
        verdicts := verdicts + [verdict];
      }
      assert h[..n] == h;
    }

    /** The driver's part of XDP_CLONE_TX(n).  In a state the daemon reached by
        `ops`, exactly the topic's history is served, in order, none dropped. */
    method Publish(pkt: array<Byte>, ghost ops: seq<D.Op>) returns (verdicts: seq<nat>)
      requires maps.Contents() == Run(ops)
      modifies this
      ensures pkt[..] == old(pkt[..])
      ensures |verdicts| == if PublishKey(pkt[..]).Some? then |Since(ops, PublishKey(pkt[..]).value)| else 0
      ensures forall t :: PublishesTo(pkt[..], t) ==> |verdicts| == if PortBytes(pkt[..]) then |Since(ops, Pad(t))| else 0
      ensures forall v :: v in verdicts ==> v == XDP_TX
      ensures wire == old(wire) +
                if PublishKey(pkt[..]).Some? then CloneCopies(pkt[..], Since(ops, PublishKey(pkt[..]).value)) else []
    {
      hide Run, Since, FastFrame, PublishesTo, PortBytes, IsPublish, ToBrokerPort, KernelKey;
      ghost var f := pkt[..];
      ghost var k := PublishKey(f);
      KeyOnPorts(f);
      if k.Some? {
        ArrayHoldsHistory(ops, k.value);
      }
      var ret := XdpOriginal(pkt);
      verdicts := [];
      if ret % 32 == XDP_CLONE {
        CloneTxDecodes(CountOf(maps.Contents(), k.value));
        verdicts := RunClones(pkt, ret / 32, Since(ops, k.value));
      }
    }
  }

  lemma PublishKeyHeaders(f: seq<Byte>)
    requires PublishKey(f).Some?
    ensures HeadersOk(f)
  {
  }

  /** One frame per history entry, each rewritten from the original. */
  function CloneCopies(f: seq<Byte>, h: seq<U64>): (r: seq<seq<Byte>>)
    requires HeadersOk(f)
    ensures |r| == |h|
  {
    seq(|h|, i requires 0 <= i < |h| => FastFrame(f, Unpack(h[i]), CLONE_UDP_WORDS))
  }

  lemma CloneCopiesSnoc(f: seq<Byte>, h: seq<U64>, i: nat)
    requires HeadersOk(f) && i < |h|
    ensures CloneCopies(f, h[..i + 1]) == CloneCopies(f, h[..i]) + [FastFrame(f, Unpack(h[i]), CLONE_UDP_WORDS)]
  {
    hide FastFrame;
  }

  /** Each clone is a delivery exactly when the longer loop's tail is harmless
      or its UDP field came out as zero; for even UDP lengths up to 2048 the
      tail always is. */
  lemma ClonesDeliver(f: seq<Byte>, h: seq<U64>, i: nat)
    requires HeadersOk(f) && NoIpOptions(f) && WellSized(f) && i < |h|
    ensures Rewritten(f, CloneCopies(f, h)[i], Unpack(h[i]))
    ensures Delivered(f, CloneCopies(f, h)[i], Unpack(h[i]))
            <==> IpSized(f) && (HarmlessTail(f, CLONE_UDP_WORDS) || FastUnchecked(f, Unpack(h[i]), CLONE_UDP_WORDS))
    ensures UdpLen(f) % 2 == 0 && UdpLen(f) <= 2048 ==> HarmlessTail(f, CLONE_UDP_WORDS)
  {
    hide FastFrame, Rewritten, FastUnchecked;
    FastFrameDelivers(f, Unpack(h[i]), CLONE_UDP_WORDS);
  }
}
