/** `bpf_broker_proto.c`: the daemon that keeps the three maps, and what holds
    of them after every run of commands. */
module Daemon {
  import opened Words
  import opened TopicKey
  import opened PacketOps
  import opened Maps

  datatype State = State(subs: map<Key, set<U64>>, count: map<Key, U32>, first: map<Key, U64>)

  const EMPTY := State(map[], map[], map[])

  /** A hash-map update with BPF_ANY fails only on a new key in a full map. */
  predicate HasRoom<V>(m: map<Key, V>, k: Key) {
    k in m || |m| < MAX_TOPIC_ID
  }

  predicate Admits(s: State, k: Key, p: U64) {
    k in s.subs && (p in s.subs[k] || |s.subs[k]| < INNER_ENTRIES)
  }

  /** Every map write of a SUBSCRIBE succeeds. */
  predicate Completes(s: State, k: Key, p: U64) {
    && Admits(s, k, p) && HasRoom(s.count, k)
    && ((if k in s.count then Add32(s.count[k], 1) else 1) == 1 ==> HasRoom(s.first, k))
  }

  function AddTopic(s: State, k: Key): State {
    if k in s.subs || !HasRoom(s.subs, k) then s else s.(subs := s.subs[k := {}])
  }

  function AddSubscriber(s: State, k: Key, p: U64): State {
    if !Admits(s, k, p) then s
    else
      var s1 := s.(subs := s.subs[k := s.subs[k] + {p}]);
      var current: U32 := if k in s.count then Add32(s.count[k], 1) else 1;
      if !HasRoom(s.count, k) then s1
      else
        var s2 := s1.(count := s.count[k := current]);
        if current == 1 && HasRoom(s.first, k) then s2.(first := s.first[k := p]) else s2
  }

  function FlushTopic(s: State, k: Key): State {
    if k !in s.subs then s
    else State(s.subs[k := {}], if HasRoom(s.count, k) then s.count[k := 0] else s.count, s.first - {k})
  }

  class DaemonProcess {
    const maps: SharedMaps

    constructor (maps: SharedMaps)
      ensures this.maps == maps
    {
      this.maps := maps;
    }

    function Contents(): State
      reads maps
    {
      State(maps.subs, maps.count, maps.first)
    }

    /** `created`: the inner map could be made. */
    method AddTopicToMaps(k: Key, created: bool) returns (ret: int)
      modifies maps
      ensures Contents() == if created then AddTopic(old(Contents()), k) else old(Contents())
      ensures ret == 0 <==> k in maps.subs
    {
      if k in maps.subs {
        return 0;
      }
      if !created {
        return -1;
      }
      if |maps.subs| >= MAX_TOPIC_ID {
        return -1;
      }
      maps.subs := maps.subs[k := {}];
      return 0;
    }

    method AddSubscriberToMaps(k: Key, ip: U32, port: U16) returns (ret: int)
      modifies maps
      ensures Contents() == AddSubscriber(old(Contents()), k, PackHost(ip, port))
      ensures ret == 0 <==> Completes(old(Contents()), k, PackHost(ip, port))
    {
      if k !in maps.subs {
        return -1;
      }
      var key := PackHost(ip, port);
      if key !in maps.subs[k] && |maps.subs[k]| >= INNER_ENTRIES {
        return -1;
      }
      maps.subs := maps.subs[k := maps.subs[k] + {key}];
      var current: U32 := 0;
      if k in maps.count {
        current := Add32(maps.count[k], 1);
      } else {
        current := 1;
      }
      if k !in maps.count && |maps.count| >= MAX_TOPIC_ID {
        return -1;
      }
      maps.count := maps.count[k := current];
      if current == 1 {
        if k !in maps.first && |maps.first| >= MAX_TOPIC_ID {
          return -1;
        }
        maps.first := maps.first[k := key];
      }
      return 0;
    }

    /** Deletes the first key until there is none; the set shrinks each round. */
    method FlushTopicInMaps(k: Key) returns (deleted: nat)
      modifies maps
      ensures Contents() == FlushTopic(old(Contents()), k)
      ensures deleted == if k in old(maps.subs) then |old(maps.subs)[k]| else 0
    {
      deleted := 0;
      if k !in maps.subs {
        return;
      }
      while maps.subs[k] != {}
        invariant k in maps.subs && maps.subs == old(maps.subs)[k := maps.subs[k]]
        invariant maps.count == old(maps.count) && maps.first == old(maps.first)
        invariant deleted + |maps.subs[k]| == |old(maps.subs)[k]|
        decreases |maps.subs[k]|
      {
        var key :| key in maps.subs[k];
        maps.subs := maps.subs[k := maps.subs[k] - {key}];
        deleted := deleted + 1;
      }
      if k in maps.count || |maps.count| < MAX_TOPIC_ID {
        maps.count := maps.count[k := 0];
      }
      maps.first := maps.first - {k};
    }
  }

  function Swap32(v: U32): U32 {
    Swap16(v % 0x1_0000) * 0x1_0000 + Swap16(v / 0x1_0000)
  }

  /** `htonl(ip) << 32 | htons(port) << 16`, from host-order values. */
  function PackHost(ip: U32, port: U16): U64 {
    Swap32(ip) * 0x1_0000_0000 + Swap16(port) * 0x1_0000
  }

  /** The daemon converts the sender's address to host order and back, so what
      is stored is the memory image of the socket address. */
  lemma SwapTwice(ip: U32, port: U16)
    ensures Swap32(Swap32(ip)) == ip && Swap16(Swap16(port)) == port
  {
    SwapTwice16(port);
    SwapTwice16(ip % 0x1_0000);
    SwapTwice16(ip / 0x1_0000);
    hide Swap16;
    var lo, hi := Swap16(ip % 0x1_0000), Swap16(ip / 0x1_0000);
    assert Swap32(ip) % 0x1_0000 == hi && Swap32(ip) / 0x1_0000 == lo;
  }

  lemma SwapTwice16(v: U16)
    ensures Swap16(Swap16(v)) == v
  {
    var lo, hi := v % 0x100, v / 0x100;
    assert Swap16(v) % 0x100 == hi && Swap16(v) / 0x100 == lo;
  }

  // -------------------------------------------------------------- runs

  datatype Op = Register(key: Key) | Subscribe(key: Key, packed: U64) | Flush(key: Key)

  function Apply(s: State, op: Op): State {
    match op
    case Register(k) => AddTopic(s, k)
    case Subscribe(k, p) => AddSubscriber(s, k, p)
    case Flush(k) => FlushTopic(s, k)
  }

  function Run(ops: seq<Op>): State {
    if ops == [] then EMPTY else Apply(Run(ops[..|ops| - 1]), ops[|ops| - 1])
  }

  /** The subscriptions to `k` accepted since it was last flushed, in order and
      with repeats: the history the cached counter is meant to summarise. */
  function Since(ops: seq<Op>, k: Key): seq<U64> {
    if ops == [] then []
    else
      var before, op := ops[..|ops| - 1], ops[|ops| - 1];
      if op.key != k then Since(before, k)
      else match op
        case Register(_) => Since(before, k)
        case Subscribe(_, p) => if Admits(Run(before), k, p) then Since(before, k) + [p] else Since(before, k)
        case Flush(_) => []
  }

  ghost predicate SideMapsFit(s: State) {
    && |s.subs| <= MAX_TOPIC_ID
    && s.count.Keys <= s.subs.Keys && s.first.Keys <= s.subs.Keys
  }

  function Members<T>(h: seq<T>): set<T> {
    set p | p in h
  }

  /** How the three map entries of one topic summarise its history. */
  ghost predicate Summarises(s: State, k: Key, h: seq<U64>) {
    && (k !in s.subs ==> h == [])
    && (k in s.subs ==> |s.subs[k]| <= INNER_ENTRIES && s.subs[k] == Members(h))
    && (k !in s.count ==> h == [])
    && (k in s.count ==> s.count[k] == |h| % 0x1_0000_0000)
    && (k in s.first <==> h != [])
    && (|h| % 0x1_0000_0000 == 1 ==> s.first[k] == h[|h| - 1])
  }

  lemma ProperSubsetSize<T>(a: set<T>, b: set<T>, x: T)
    requires a <= b && x in b && x !in a
    ensures |a| < |b|
  {
    SubsetSize(a + {x}, b);
  }

  lemma {:induction false} SubsetSize<T>(a: set<T>, b: set<T>)
    requires a <= b
    ensures |a| <= |b|
  {
    if a != {} {
      var x :| x in a;
      SubsetSize(a - {x}, b - {x});
    }
  }

  /** The side maps never run out of room once the outer map has the topic. */
  lemma RoomForRegistered(s: State, k: Key)
    requires SideMapsFit(s) && k in s.subs
    ensures HasRoom(s.count, k) && HasRoom(s.first, k)
  {
    if k !in s.count {
      ProperSubsetSize(s.count.Keys, s.subs.Keys, k);
      assert |s.count| == |s.count.Keys| && |s.subs| == |s.subs.Keys|;
    }
    if k !in s.first {
      ProperSubsetSize(s.first.Keys, s.subs.Keys, k);
      assert |s.first| == |s.first.Keys| && |s.subs| == |s.subs.Keys|;
    }
  }

  lemma StepKeepsFit(s: State, op: Op)
    requires SideMapsFit(s)
    ensures SideMapsFit(Apply(s, op))
  {
    match op
    case Register(k) =>
      TopicKeepsFit(s, k);
    case Subscribe(k, p) =>
      if Admits(s, k, p) {
        SubscribeWrites(s, k, p);
        hide AddSubscriber, Admits, HasRoom;
        SameKeys(s.subs, k, s.subs[k] + {p});
      }
    case Flush(k) =>
      hide HasRoom;
      if k in s.subs {
        SameKeys(s.subs, k, {});
      }
  }

  lemma TopicKeepsFit(s: State, k: Key)
    requires SideMapsFit(s)
    ensures SideMapsFit(AddTopic(s, k))
  {
    if k !in s.subs {
      assert s.subs[k := {}].Keys == s.subs.Keys + {k};
      assert |s.subs[k := {}]| == |s.subs[k := {}].Keys| && |s.subs| == |s.subs.Keys|;
    }
  }

  /** What an accepted SUBSCRIBE leaves in the three maps. */
  lemma SubscribeWrites(s: State, k: Key, p: U64)
    requires SideMapsFit(s) && Admits(s, k, p)
    ensures k in s.subs && Completes(s, k, p)
    ensures var current: U32 := if k in s.count then Add32(s.count[k], 1) else 1;
            AddSubscriber(s, k, p) == State(s.subs[k := s.subs[k] + {p}], s.count[k := current],
                                            if current == 1 then s.first[k := p] else s.first)
  {
    hide SideMapsFit, HasRoom;
    assert k in s.subs;
    RoomForRegistered(s, k);
  }

  lemma SameKeys<V>(m: map<Key, V>, k: Key, v: V)
    requires k in m
    ensures m[k := v].Keys == m.Keys && |m[k := v]| == |m|
  {
    assert m[k := v].Keys == m.Keys;
    assert |m[k := v]| == |m[k := v].Keys| && |m| == |m.Keys|;
  }

  lemma SubscribeKeepsSummary(s: State, k: Key, p: U64, h: seq<U64>)
    requires SideMapsFit(s) && Summarises(s, k, h) && Admits(s, k, p)
    ensures Summarises(AddSubscriber(s, k, p), k, h + [p])
  {
    hide SideMapsFit;
    SubscribeWrites(s, k, p);
    MembersSnoc(h, p);
    CountStep(|h|);
    hide Members, AddSubscriber, Add32;
    assert k !in s.count ==> |h + [p]| == 1;
  }

  lemma MembersSnoc<T>(h: seq<T>, p: T)
    ensures Members(h + [p]) == Members(h) + {p}
  {
  }

  lemma CountStep(n: nat)
    ensures (n + 1) % 0x1_0000_0000 == Add32(n % 0x1_0000_0000, 1)
  {
  }

  /** The cache invariant, over every run: however commands are interleaved,
      repeated or refused, the three entries of each topic summarise exactly
      the subscriptions accepted since its last flush. */
  lemma {:induction false} MapsSummariseHistory(ops: seq<Op>, k: Key)
    ensures SideMapsFit(Run(ops)) && Summarises(Run(ops), k, Since(ops, k))
  {
    hide SideMapsFit, Summarises, Apply;
    if ops == [] {
      EmptySummary(k);
    } else {
      var before := ops[..|ops| - 1];
      MapsSummariseHistory(before, k);
      StepKeepsFit(Run(before), ops[|ops| - 1]);
      StepKeepsSummary(Run(before), ops[|ops| - 1], k, Since(before, k));
    }
  }

  lemma EmptySummary(k: Key)
    ensures SideMapsFit(EMPTY) && Summarises(EMPTY, k, [])
  {
  }

  lemma StepKeepsSummary(s: State, op: Op, k: Key, h: seq<U64>)
    requires SideMapsFit(s) && Summarises(s, k, h)
    ensures Summarises(Apply(s, op), k,
      if op.key != k || op.Register? then h
      else if op.Flush? then []
      else if Admits(s, k, op.packed) then h + [op.packed] else h)
  {
    hide SideMapsFit;
    if op.key == k {
      match op
      case Register(_) =>
      case Subscribe(_, p) =>
        if Admits(s, k, p) {
          SubscribeKeepsSummary(s, k, p, h);
        }
      case Flush(_) =>
        if k in s.subs {
          RoomForRegistered(s, k);
        }
    }
  }

  /** What the fast path relies on between commands. */
  lemma CacheIsSound(ops: seq<Op>, k: Key)
    requires |Since(ops, k)| < 0x1_0000_0000
    ensures var s := Run(ops);
            var members := if k in s.subs then s.subs[k] else {};
            var count := if k in s.count then s.count[k] else 0;
            count == |Since(ops, k)| &&
            (count == 0 <==> members == {}) && count >= |members| &&
            (count == 1 ==> k in s.subs && k in s.first && members == {s.first[k]} && Since(ops, k) == [s.first[k]])
  {
    hide Run, Since, SideMapsFit;
    MapsSummariseHistory(ops, k);
    SummaryIsSound(Run(ops), k, Since(ops, k));
  }

  lemma SummaryIsSound(s: State, k: Key, h: seq<U64>)
    requires Summarises(s, k, h) && |h| < 0x1_0000_0000
    ensures var members := if k in s.subs then s.subs[k] else {};
            var count := if k in s.count then s.count[k] else 0;
            count == |h| && (count == 0 <==> members == {}) && count >= |members| &&
            (count == 1 ==> k in s.subs && k in s.first && members == {s.first[k]} && h == [s.first[k]])
  {
    MembersAtMost(h);
    assert |h| % 0x1_0000_0000 == |h|;
    if |h| == 1 {
      assert h == [h[0]];
    }
    if h != [] {
      assert h[0] in h && h[0] in Members(h);
    }
  }

  lemma {:induction false} MembersAtMost<T>(h: seq<T>)
    ensures |Members(h)| <= |h|
  {
    if h != [] {
      var rest := h[..|h| - 1];
      MembersAtMost(rest);
      assert h == rest + [h[|h| - 1]];
      MembersSnoc(rest, h[|h| - 1]);
    }
  }

  /** When the 32-bit counter has wrapped round to 1, the fast path still
      reaches every subscriber exactly if all of them are the same one. */
  lemma AfterWrap(ops: seq<Op>, k: Key)
    requires k in Run(ops).count && Run(ops).count[k] == 1
    ensures k in Run(ops).first && k in Run(ops).subs
    ensures Run(ops).subs[k] == {Run(ops).first[k]}
            <==> forall i :: 0 <= i < |Since(ops, k)| ==> Since(ops, k)[i] == Run(ops).first[k]
  {
    hide Run, Since, SideMapsFit;
    MapsSummariseHistory(ops, k);
    OneMember(Since(ops, k), Run(ops).first[k]);
  }

  lemma OneMember<T>(h: seq<T>, p: T)
    requires h != []
    ensures Members(h) == {p} <==> forall i :: 0 <= i < |h| ==> h[i] == p
  {
    assert h[0] in Members(h);
    if Members(h) == {p} {
      forall i | 0 <= i < |h| ensures h[i] == p {
        assert h[i] in Members(h);
      }
    }
  }

  function Times(p: U64, n: nat): (r: seq<U64>)
    ensures |r| == n && forall i :: 0 <= i < n ==> r[i] == p
  {
    seq(n, _ => p)
  }

  /** One REGISTER and `n` SUBSCRIBEs of `p`. */
  function Repeated(k: Key, p: U64, n: nat): seq<Op> {
    if n == 0 then [Register(k)] else Repeated(k, p, n - 1) + [Subscribe(k, p)]
  }

  /** One more accepted SUBSCRIBE. */
  lemma AcceptedSubscribe(ops: seq<Op>, k: Key, p: U64)
    requires Admits(Run(ops), k, p)
    ensures k in Run(ops + [Subscribe(k, p)]).subs
    ensures Since(ops + [Subscribe(k, p)], k) == Since(ops, k) + [p]
  {
    hide HasRoom, Add32;
    assert (ops + [Subscribe(k, p)])[..|ops|] == ops;
  }

  lemma OnlyRegistered(k: Key)
    ensures k in Run([Register(k)]).subs && Since([Register(k)], k) == []
  {
    assert [Register(k)][..0] == [];
  }

  lemma {:induction false} RepeatedHistory(k: Key, p: U64, n: nat)
    ensures k in Run(Repeated(k, p, n)).subs && Since(Repeated(k, p, n), k) == Times(p, n)
  {
    hide Run, Since, Admits, AddTopic;
    if n == 0 {
      OnlyRegistered(k);
    } else {
      RepeatedHistory(k, p, n - 1);
      FewMembers(Repeated(k, p, n - 1), k, p);
      AcceptedSubscribe(Repeated(k, p, n - 1), k, p);
      assert Times(p, n - 1) + [p] == Times(p, n);
    }
  }

  /** A topic with one subscriber at most takes any other. */
  lemma FewMembers(ops: seq<Op>, k: Key, p: U64)
    requires k in Run(ops).subs && forall i :: 0 <= i < |Since(ops, k)| ==> Since(ops, k)[i] == p
    ensures forall q :: Admits(Run(ops), k, q)
  {
    hide Run, Since, SideMapsFit;
    MapsSummariseHistory(ops, k);
    var h := Since(ops, k);
    assert Run(ops).subs[k] <= {p};
    SubsetSize(Run(ops).subs[k], {p});
  }

  /** The wrap itself: after 2^32 SUBSCRIBEs of `p` and one of `q`, the count
      reads 1 and the cached address is `q`, while both are subscribed. */
  lemma WrappedCounterMisses(k: Key, p: U64, q: U64)
    requires p != q
    ensures var s := Run(Repeated(k, p, 0x1_0000_0000) + [Subscribe(k, q)]);
            && k in s.count && s.count[k] == 1
            && k in s.first && s.first[k] == q
            && k in s.subs && s.subs[k] == {p, q}
  {
    hide Run, Since, SideMapsFit, Repeated, Admits, Members;
    var before := Repeated(k, p, 0x1_0000_0000);
    RepeatedHistory(k, p, 0x1_0000_0000);
    FewMembers(before, k, p);
    AcceptedSubscribe(before, k, q);
    WrappedMembers(p, q);
    MapsSummariseHistory(before + [Subscribe(k, q)], k);
  }

  lemma WrappedMembers(p: U64, q: U64)
    ensures Members(Times(p, 0x1_0000_0000) + [q]) == {p, q}
  {
    var h := Times(p, 0x1_0000_0000) + [q];
    assert h[0] == p && h[|h| - 1] == q;
    assert h[0] in h && h[|h| - 1] in h;
  }
}
