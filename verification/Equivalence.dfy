/** One stream of commands, three brokers: started empty and fed the same
    datagrams, the reference broker, the XDP+TC broker and the clone broker read
    them alike and hold the same subscribers. */
module Equivalence {
  import opened Words
  import opened Frame
  import opened TopicKey
  import opened Utf8
  import opened DaemonMain
  import Maps
  import D = Daemon
  import C = CloneBroker
  import R = ReferenceBroker

  /** Topics of one to nineteen printable ASCII characters. */
  predicate ValidTopic(t: Text) {
    0 < |t| < KEY_SIZE && forall i :: 0 <= i < |t| ==> 33 <= t[i] <= 126
  }

  datatype Cmd = Register(topic: Text) | Subscribe(topic: Text, from: Addr) | Flush(topic: Text)

  function Verb(c: Cmd): seq<Byte> {
    match c
    case Register(_) => Protocol.REGISTER
    case Subscribe(_, _) => Protocol.SUBSCRIBE
    case Flush(_) => Protocol.FLUSH
  }

  function TextOf(c: Cmd): seq<Byte>
    requires ValidTopic(c.topic)
  {
    Verb(c) + [SPACE] + c.topic
  }

  function KeyFor(t: Text): Key {
    if ValidTopic(t) then Pad(t) else Zeros(KEY_SIZE)
  }

  function OpOf(c: Cmd): D.Op {
    match c
    case Register(t) => D.Register(KeyFor(t))
    case Subscribe(t, a) => D.Subscribe(KeyFor(t), Pack(a))
    case Flush(t) => D.Flush(KeyFor(t))
  }

  function CommandOf(c: Cmd): R.Command {
    match c
    case Register(t) => R.Register(t)
    case Subscribe(t, _) => R.Subscribe(t)
    case Flush(t) => R.Flush(t)
  }

  predicate LineEnd(e: seq<Byte>) {
    e == [] || e == [NEWLINE] || e == [RETURN, NEWLINE]
  }

  /** All three dispatchers read one datagram as the same command, with or
      without a line end. */
  lemma DispatchersAgree(c: Cmd, from: Addr, e: seq<Byte>)
    requires ValidTopic(c.topic) && LineEnd(e) && (c.Subscribe? ==> from == c.from)
    ensures R.Reads(TextOf(c) + e) == CommandOf(c)
    ensures Received(TextOf(c) + e) == TextOf(c) + e && Dispatch(TextOf(c) + e, from) == Some(OpOf(c))
  {
    ReferenceReads(c, e);
    DaemonReads(c, from, e);
  }

  lemma ReferenceReads(c: Cmd, e: seq<Byte>)
    requires ValidTopic(c.topic) && LineEnd(e)
    ensures R.Reads(TextOf(c) + e) == CommandOf(c)
  {
    hide R.Parse, Decode;
    AsciiFirst(TextOf(c) + e, []);
    assert TextOf(c) + e + [] == TextOf(c) + e;
    NothingDecodes();
    ReferenceParses(c, e);
  }

  lemma ReferenceParses(c: Cmd, e: seq<Byte>)
    requires ValidTopic(c.topic) && LineEnd(e)
    ensures R.Parse(TextOf(c) + e) == CommandOf(c)
  {
    hide R.Trim, R.SplitN3;
    var verb: Text, core: Text, tail: Text := Verb(c), TextOf(c), e;
    assert core[0] == verb[0] && core[|core| - 1] == c.topic[|c.topic| - 1];
    R.TrimIs([], core, tail);
    assert [] + core + tail == TextOf(c) + e;
    assert core == verb + [R.BLANK] + c.topic;
    R.SplitOfPair(verb, c.topic);
  }

  lemma NothingDecodes()
    ensures Decode([]) == []
  {
  }

  lemma DaemonReads(c: Cmd, from: Addr, e: seq<Byte>)
    requires ValidTopic(c.topic) && LineEnd(e) && (c.Subscribe? ==> from == c.from)
    ensures Dispatch(TextOf(c) + e, from) == Some(OpOf(c))
  {
    hide DaemonKey, KernelKey, Dispatch, Pack;
    var t: seq<Byte>, msg := c.topic, TextOf(c) + e;
    PlainKeysAgree(t, [], e);
    assert KeyFor(c.topic) == Pad(t);
    hide KeyFor;
    assert msg == Verb(c) + [SPACE] + (t + e);
    assert msg[|Verb(c)| + 1..] == t + e;
    DispatchOn(c, msg, from);
  }

  lemma DispatchOn(c: Cmd, msg: seq<Byte>, from: Addr)
    requires Verb(c) + [SPACE] <= msg && DaemonKey(msg[|Verb(c)| + 1..]) == Some(KeyFor(c.topic))
    requires c.Subscribe? ==> from == c.from
    ensures Dispatch(msg, from) == Some(OpOf(c))
  {
    hide DaemonKey, KeyFor, Pack;
    CommandsDiffer(msg);
    match c
    case Register(_) =>
    case Subscribe(_, _) =>
    case Flush(_) =>
  }

  // --------------------------------------------------------------- runs

  function Ops(cs: seq<Cmd>): seq<D.Op> {
    seq(|cs|, i requires 0 <= i < |cs| => OpOf(cs[i]))
  }

  function Next(topics: map<Text, set<Addr>>, c: Cmd): map<Text, set<Addr>> {
    match c
    case Register(t) => if t in topics then topics else topics[t := {}]
    case Subscribe(t, a) => topics[t := (if t in topics then topics[t] else {}) + {a}]
    case Flush(t) => if t in topics then topics[t := {}] else topics
  }

  function Topics(cs: seq<Cmd>): map<Text, set<Addr>> {
    if cs == [] then map[] else Next(Topics(cs[..|cs| - 1]), cs[|cs| - 1])
  }

  /** The subscriptions to `t` since its last flush, with repeats. */
  function Since(cs: seq<Cmd>, t: Text): seq<Addr> {
    if cs == [] then []
    else
      var before, c := cs[..|cs| - 1], cs[|cs| - 1];
      if c.topic != t || c.Register? then Since(before, t)
      else if c.Flush? then []
      else Since(before, t) + [c.from]
  }

  /** REGISTER before SUBSCRIBE, no more topics and subscribers than the maps
      have room for. */
  predicate LegalStep(topics: map<Text, set<Addr>>, c: Cmd) {
    ValidTopic(c.topic) &&
    match c
    case Register(t) => t in topics || |topics| < Maps.MAX_TOPIC_ID
    case Subscribe(t, a) => t in topics && (a in topics[t] || |topics[t]| < Maps.INNER_ENTRIES)
    case Flush(_) => true
  }

  predicate Legal(cs: seq<Cmd>) {
    cs == [] || (Legal(cs[..|cs| - 1]) && LegalStep(Topics(cs[..|cs| - 1]), cs[|cs| - 1]))
  }

  /** What the clone broker's array has room for. */
  function Kept<T>(h: seq<T>): seq<T> {
    if |h| <= C.MAX_SUBSCRIBERS then h else h[..C.MAX_SUBSCRIBERS]
  }

  function PackAll(h: seq<Addr>): seq<U64> {
    seq(|h|, i requires 0 <= i < |h| => Pack(h[i]))
  }

  function PackSet(s: set<Addr>): set<U64> {
    set a | a in s :: Pack(a)
  }

  function Keys(topics: map<Text, set<Addr>>): set<Key> {
    set t | t in topics :: KeyFor(t)
  }

  lemma PackInjective(a: Addr, b: Addr)
    ensures Pack(a) == Pack(b) <==> a == b
  {
    UnpackPack(a);
    UnpackPack(b);
  }

  lemma PackMembership(s: set<Addr>, a: Addr)
    ensures Pack(a) in PackSet(s) <==> a in s
    ensures PackSet(s + {a}) == PackSet(s) + {Pack(a)}
  {
    if Pack(a) in PackSet(s) {
      var b :| b in s && Pack(b) == Pack(a);
      PackInjective(a, b);
    }
    hide Pack;
  }

  lemma {:induction false} PackSize(s: set<Addr>)
    ensures |PackSet(s)| == |s|
  {
    if s == {} {
      assert PackSet(s) == {};
    } else {
      var a :| a in s;
      PackSize(s - {a});
      PackMembership(s - {a}, a);
      assert s - {a} + {a} == s;
    }
  }

  lemma KeyMembership(topics: map<Text, set<Addr>>, t: Text)
    requires ValidTopic(t) && forall u :: u in topics ==> ValidTopic(u)
    ensures KeyFor(t) in Keys(topics) <==> t in topics
  {
    if KeyFor(t) in Keys(topics) {
      var u :| u in topics && KeyFor(u) == KeyFor(t);
      PlainKeysDistinct(t, u);
    }
  }

  lemma {:induction false} KeyCount(topics: map<Text, set<Addr>>)
    requires forall u :: u in topics ==> ValidTopic(u)
    ensures |Keys(topics)| == |topics|
  {
    hide KeyFor, ValidTopic;
    if |topics| == 0 {
      assert topics.Keys == {} && Keys(topics) == {};
    } else {
      var t :| t in topics;
      var rest := topics - {t};
      KeyCount(rest);
      KeyMembership(rest, t);
      assert topics.Keys == rest.Keys + {t};
      KeysAfter(rest, t, topics[t]);
      assert rest[t := topics[t]] == topics;
      assert |topics| == |topics.Keys| && |rest| == |rest.Keys|;
    }
  }

  /** The outer maps hold one key per topic, and the inner set of each topic is
      the reference broker's set, packed. */
  ghost predicate SameTopics(topics: map<Text, set<Addr>>, subs: map<Key, set<U64>>) {
    && (forall t :: t in topics ==> ValidTopic(t))
    && subs.Keys == Keys(topics)
    && (forall t :: t in topics ==> KeyFor(t) in subs && subs[KeyFor(t)] == PackSet(topics[t]))
  }

  lemma KeysAfter(topics: map<Text, set<Addr>>, t: Text, v: set<Addr>)
    ensures Keys(topics[t := v]) == Keys(topics) + {KeyFor(t)}
  {
    assert t in topics[t := v];
  }

  lemma UpdateKeepsSame(topics: map<Text, set<Addr>>, subs: map<Key, set<U64>>, t: Text, v: set<Addr>)
    requires SameTopics(topics, subs) && ValidTopic(t)
    ensures SameTopics(topics[t := v], subs[KeyFor(t) := PackSet(v)])
  {
    hide KeyFor;
    KeysAfter(topics, t, v);
    forall u | u in topics[t := v]
      ensures KeyFor(u) in subs[KeyFor(t) := PackSet(v)]
      ensures subs[KeyFor(t) := PackSet(v)][KeyFor(u)] == PackSet(topics[t := v][u])
    {
      SameKey(t, u);
    }
  }

  lemma SameKey(t: Text, u: Text)
    requires ValidTopic(t) && ValidTopic(u)
    ensures KeyFor(t) == KeyFor(u) <==> t == u
  {
    PlainKeysDistinct(t, u);
  }

  lemma SubsAfter(s: D.State, op: D.Op)
    ensures D.Apply(s, op).subs ==
      match op
      case Register(k) => if k in s.subs || |s.subs| >= Maps.MAX_TOPIC_ID then s.subs else s.subs[k := {}]
      case Subscribe(k, p) => if D.Admits(s, k, p) then s.subs[k := s.subs[k] + {p}] else s.subs
      case Flush(k) => if k in s.subs then s.subs[k := {}] else s.subs
  {
    hide D.Admits;
    match op
    case Register(_) =>
    case Subscribe(_, _) =>
    case Flush(_) =>
  }

  /** One legal command keeps the XDP+TC broker's sets equal to the reference
      broker's; what it refuses or accepts is decided alike. */
  lemma StepKeepsSame(topics: map<Text, set<Addr>>, s: D.State, c: Cmd)
    requires SameTopics(topics, s.subs) && LegalStep(topics, c)
    ensures SameTopics(Next(topics, c), D.Apply(s, OpOf(c)).subs)
    ensures c.Subscribe? ==> D.Admits(s, KeyFor(c.topic), Pack(c.from))
  {
    hide KeyFor, Pack, D.Apply, ValidTopic;
    SubsAfter(s, OpOf(c));
    KeyMembership(topics, c.topic);
    NoneIsNone();
    match c
    case Register(t) =>
      if t !in topics {
        KeyCount(topics);
        assert |s.subs| == |s.subs.Keys|;
        UpdateKeepsSame(topics, s.subs, t, {});
      }
    case Subscribe(t, a) =>
      PackMembership(topics[t], a);
      PackSize(topics[t]);
      UpdateKeepsSame(topics, s.subs, t, topics[t] + {a});
    case Flush(t) =>
      if t in topics {
        UpdateKeepsSame(topics, s.subs, t, {});
      }
  }

  /** The legality conditions are exact: from agreeing sets, a command leaves
      the sets agreeing if and only if it meets them. */
  lemma StepAgreesIff(topics: map<Text, set<Addr>>, s: D.State, c: Cmd)
    requires SameTopics(topics, s.subs) && ValidTopic(c.topic)
    ensures SameTopics(Next(topics, c), D.Apply(s, OpOf(c)).subs) <==> LegalStep(topics, c)
  {
    if LegalStep(topics, c) {
      hide SameTopics, LegalStep, Next, D.Apply;
      StepKeepsSame(topics, s, c);
    } else {
      IllegalStepSplits(topics, s, c);
    }
  }

  lemma IllegalStepSplits(topics: map<Text, set<Addr>>, s: D.State, c: Cmd)
    requires SameTopics(topics, s.subs) && ValidTopic(c.topic) && !LegalStep(topics, c)
    ensures D.Apply(s, OpOf(c)).subs == s.subs
    ensures !SameTopics(Next(topics, c), s.subs)
  {
    hide KeyFor, Pack, D.Apply, ValidTopic;
    SubsAfter(s, OpOf(c));
    KeyMembership(topics, c.topic);
    KeyCount(topics);
    assert |s.subs| == |s.subs.Keys|;
    if c.Subscribe? && c.topic in topics {
      PackMembership(topics[c.topic], c.from);
      PackSize(topics[c.topic]);
      assert Pack(c.from) in PackSet(topics[c.topic] + {c.from});
    }
    assert c.topic in Next(topics, c);
  }

  lemma NoneIsNone()
    ensures PackSet({}) == {}
  {
  }

  /** The sets agree after every legal run. */
  lemma {:induction false} SetsAgree(cs: seq<Cmd>)
    requires Legal(cs)
    ensures SameTopics(Topics(cs), D.Run(Ops(cs)).subs)
  {
    hide SameTopics, D.Apply, Next, LegalStep;
    if cs == [] {
      EmptySame();
    } else {
      var n := |cs| - 1;
      SetsAgree(cs[..n]);
      assert Ops(cs)[..n] == Ops(cs[..n]);
      StepKeepsSame(Topics(cs[..n]), D.Run(Ops(cs[..n])), cs[n]);
    }
  }

  lemma EmptySame()
    ensures SameTopics(map[], map[])
  {
  }

  /** The accepted subscriptions of a topic are the ones sent, packed. */
  lemma {:induction false} HistoriesAgree(cs: seq<Cmd>, t: Text)
    requires Legal(cs) && ValidTopic(t)
    ensures D.Since(Ops(cs), KeyFor(t)) == PackAll(Since(cs, t))
  {
    hide SameTopics, D.Apply, Next, KeyFor, Pack, D.Admits;
    if cs != [] {
      var n := |cs| - 1;
      HistoriesAgree(cs[..n], t);
      assert Ops(cs)[..n] == Ops(cs[..n]);
      SetsAgree(cs[..n]);
      StepKeepsSame(Topics(cs[..n]), D.Run(Ops(cs[..n])), cs[n]);
      SameKey(cs[n].topic, t);
    }
  }

  /** The clone broker registers the same keys and keeps the same histories, as
      far as its arrays reach. */
  lemma {:induction false} ArraysAgree(cs: seq<Cmd>, t: Text)
    requires Legal(cs) && ValidTopic(t)
    ensures C.Run(Ops(cs)).arrays.Keys == D.Run(Ops(cs)).subs.Keys
    ensures C.Since(Ops(cs), KeyFor(t)) == PackAll(Kept(Since(cs, t)))
  {
    hide SameTopics, D.Apply, C.Apply, Next, KeyFor, Pack;
    if cs != [] {
      var n := |cs| - 1;
      var ops := Ops(cs[..n]);
      ArraysAgree(cs[..n], t);
      assert Ops(cs)[..n] == ops;
      SetsAgree(cs[..n]);
      SameKeysStep(C.Run(ops), D.Run(ops), OpOf(cs[n]));
      SameKey(cs[n].topic, t);
      RegisteredKey(cs, n);
    }
  }

  lemma RegisteredKey(cs: seq<Cmd>, n: nat)
    requires n < |cs| && LegalStep(Topics(cs[..n]), cs[n]) && SameTopics(Topics(cs[..n]), D.Run(Ops(cs[..n])).subs)
    ensures cs[n].Subscribe? ==> KeyFor(cs[n].topic) in D.Run(Ops(cs[..n])).subs
  {
    hide KeyFor;
  }

  lemma SameKeysStep(c: C.State, d: D.State, op: D.Op)
    requires c.arrays.Keys == d.subs.Keys
    ensures C.Apply(c, op).arrays.Keys == D.Apply(d, op).subs.Keys
  {
    hide D.Apply;
    SubsAfter(d, op);
    assert |c.arrays| == |c.arrays.Keys| && |d.subs| == |d.subs.Keys|;
  }

  // ---------------------------------------------------- who is subscribed

  function Subscribers(cs: seq<Cmd>, t: Text): set<Addr> {
    if t in Topics(cs) then Topics(cs)[t] else {}
  }

  lemma {:induction false} SinceMembers(cs: seq<Cmd>, t: Text)
    requires Legal(cs)
    ensures D.Members(Since(cs, t)) == Subscribers(cs, t)
  {
    if cs != [] {
      var before, c := cs[..|cs| - 1], cs[|cs| - 1];
      SinceMembers(before, t);
      if c.Subscribe? && c.topic == t {
        D.MembersSnoc(Since(before, t), c.from);
      }
    }
  }

  predicate NoRepeats<T(==)>(h: seq<T>) {
    forall i, j :: 0 <= i < j < |h| ==> h[i] != h[j]
  }

  /** A sequence lists a set once each exactly when it has no repeats. */
  lemma {:induction false} OnceEach<T>(h: seq<T>)
    ensures multiset(h) == multiset(D.Members(h)) <==> NoRepeats(h)
    ensures multiset(D.Members(h)) <= multiset(h)
  {
    if h != [] {
      var n := |h| - 1;
      var before, x := h[..n], h[n];
      assert h == before + [x];
      OnceEach(before);
      D.MembersSnoc(before, x);
      if x in before {
        var i :| 0 <= i < n && before[i] == x;
        assert h[i] == h[n] && !NoRepeats(h);
        assert D.Members(h) == D.Members(before);
        assert multiset(h)[x] == multiset(before)[x] + 1 >= 2;
      } else {
        assert x !in D.Members(before);
        assert multiset(D.Members(h)) == multiset(D.Members(before)) + multiset{x};
        assert multiset(h) == multiset(before) + multiset{x};
        CancelOne(multiset(before), multiset(D.Members(before)), x);
        assert NoRepeats(h) <==> NoRepeats(before);
      }
    }
  }

  lemma CancelOne<T>(a: multiset<T>, b: multiset<T>, x: T)
    ensures a + multiset{x} == b + multiset{x} <==> a == b
  {
    if a + multiset{x} == b + multiset{x} {
      assert a == a + multiset{x} - multiset{x} == b;
    }
  }

  /** No set outgrows the inner hash map. */
  lemma {:induction false} SetsAreSmall(cs: seq<Cmd>, t: Text)
    requires Legal(cs)
    ensures |Subscribers(cs, t)| <= Maps.INNER_ENTRIES
  {
    if cs != [] {
      SetsAreSmall(cs[..|cs| - 1], t);
      var c := cs[|cs| - 1];
      if c.Subscribe? && c.from in Subscribers(cs[..|cs| - 1], c.topic) {
        assert Subscribers(cs[..|cs| - 1], c.topic) + {c.from} == Subscribers(cs[..|cs| - 1], c.topic);
      }
    }
  }

  /** Without repeats a history is no longer than the set it lists. */
  lemma NoRepeatsIsShort<T>(h: seq<T>)
    requires NoRepeats(h)
    ensures |h| == |D.Members(h)|
  {
    OnceEach(h);
    assert |multiset(h)| == |multiset(D.Members(h))|;
  }

  lemma MembersOfPrefix<T>(h: seq<T>, n: nat)
    requires n <= |h|
    ensures D.Members(h[..n]) <= D.Members(h)
  {
  }

  /** At most 256 distinct subscribers: a history too long for the array repeats
      one within the part that is kept. */
  lemma KeptRepeats(cs: seq<Cmd>, t: Text)
    requires Legal(cs)
    ensures NoRepeats(Kept(Since(cs, t))) <==> NoRepeats(Since(cs, t))
    ensures NoRepeats(Since(cs, t)) ==> |Since(cs, t)| <= Maps.INNER_ENTRIES
    ensures D.Members(Kept(Since(cs, t))) <= Subscribers(cs, t)
    ensures |Since(cs, t)| <= C.MAX_SUBSCRIBERS ==> D.Members(Kept(Since(cs, t))) == Subscribers(cs, t)
  {
    hide Legal, Since, Subscribers, NoRepeats, D.Members;
    var h := Since(cs, t);
    SinceMembers(cs, t);
    SetsAreSmall(cs, t);
    MembersOfPrefix(h, |Kept(h)|);
    assert Kept(h) == h[..|Kept(h)|];
    if NoRepeats(h) {
      NoRepeatsIsShort(h);
    } else if NoRepeats(Kept(h)) {
      NoRepeatsIsShort(Kept(h));
      D.SubsetSize(D.Members(Kept(h)), D.Members(h));
    }
  }

  /** Once each over the kept part is once each over the set. */
  lemma KeptOnce(cs: seq<Cmd>, t: Text)
    requires Legal(cs)
    ensures multiset(Kept(Since(cs, t))) == multiset(Subscribers(cs, t)) <==> NoRepeats(Since(cs, t))
  {
    hide Legal, Since, Subscribers, NoRepeats, D.Members;
    var h, who := Since(cs, t), Subscribers(cs, t);
    KeptRepeats(cs, t);
    OnceEach(Kept(h));
    if multiset(Kept(h)) == multiset(who) {
      SetsAreSmall(cs, t);
      assert |multiset(Kept(h))| == |Kept(h)| && |multiset(who)| == |who|;
    }
  }
}
