/** One stream of commands and publications, three brokers: what each PUBLISH
    delivers, to whom, and what the counters say at the end. */
module Delivery {
  import opened Enumeration
  import opened Words
  import opened Frame
  import opened Forwarding
  import opened TopicKey
  import opened PacketOps
  import opened Utf8
  import opened Equivalence
  import K = Kernel
  import F = Refinement

  // ------------------------------------------------------------ receivers

  function Payload(f: seq<Byte>): seq<Byte>
    requires HeadersOk(f) && WellSized(f)
  {
    f[PAYLOAD..UDP + UdpLen(f)]
  }

  /** A PUBLISH to `t`, with anything at all after the topic. */
  predicate PublishFrame(f: seq<Byte>, t: Text, rest: seq<Byte>) {
    && PublishToBroker(f) && WellSized(f) && ValidTopic(t)
    && Payload(f) == R.PublishBytes(t, rest)
  }

  function Destination(g: seq<Byte>): Addr
    requires |g| >= PAYLOAD
  {
    Addr(Le32(g, DADDR), Le16(g, DPORT))
  }

  /** `sent` are copies of `f` for the subscribers listed. */
  predicate Sent(f: seq<Byte>, to: seq<U64>, sent: seq<seq<Byte>>)
    requires |f| >= PAYLOAD
  {
    |sent| == |to| && forall i :: 0 <= i < |to| ==> Rewritten(f, sent[i], Unpack(to[i]))
  }

  function Destinations(sent: seq<seq<Byte>>): seq<Addr>
    requires forall g :: g in sent ==> |g| >= PAYLOAD
  {
    seq(|sent|, i requires 0 <= i < |sent| => assert sent[i] in sent; Destination(sent[i]))
  }

  /** A piece of the payload, seen from the frame. */
  lemma PieceOfPayload(f: seq<Byte>, a: nat, b: nat, c: nat, piece: seq<Byte>)
    requires a <= b <= |f| && c + |piece| <= b - a && f[a..b][c..c + |piece|] == piece
    ensures f[a + c..] == piece + f[a + c + |piece|..]
  {
    forall i | 0 <= i < |piece| ensures f[a + c + i] == piece[i] {
      assert f[a..b][c..c + |piece|][i] == f[a..b][c + i] == f[a + c + i];
    }
  }

  lemma TopicInPublish(t: seq<Byte>, rest: seq<Byte>)
    ensures |R.PublishBytes(t, rest)| >= 9 + |t| && R.PublishBytes(t, rest)[8..9 + |t|] == t + [SPACE]
  {
    var head := Protocol.PUBLISH + [SPACE];
    assert |head| == 8;
    assert R.PublishBytes(t, rest) == head + (t + [SPACE]) + rest;
  }

  lemma FrameKey(f: seq<Byte>, t: Text, rest: seq<Byte>)
    requires PublishFrame(f, t, rest)
    ensures PublishKey(f) == Some(KeyFor(t))
  {
    hide KernelKey;
    var key: seq<Byte>, n := t, TOPIC + |t| + 1;
    TopicInPublish(key, rest);
    PieceOfPayload(f, PAYLOAD, UDP + UdpLen(f), 8, key + [SPACE]);
    PlainKeysAgree(key, f[n..], []);
  }

  lemma SentArrives(f: seq<Byte>, to: seq<U64>, sent: seq<seq<Byte>>)
    requires HeadersOk(f) && WellSized(f) && Sent(f, to, sent)
    ensures forall g :: g in sent ==> HeadersOk(g) && WellSized(g) && Payload(g) == Payload(f)
    ensures |Destinations(sent)| == |to| && forall i :: 0 <= i < |to| ==> Destinations(sent)[i] == Unpack(to[i])
  {
    hide Unpack;
    forall i | 0 <= i < |sent|
      ensures HeadersOk(sent[i]) && WellSized(sent[i]) && Payload(sent[i]) == Payload(f)
    {
      KeptHeader(f, sent[i], Unpack(to[i]));
    }
  }

  function UnpackAll(h: seq<U64>): seq<Addr> {
    seq(|h|, i requires 0 <= i < |h| => Unpack(h[i]))
  }

  lemma UnpackOfPack(h: seq<Addr>)
    ensures UnpackAll(PackAll(h)) == h
  {
    hide Pack, Unpack;
    forall i | 0 <= i < |h| ensures UnpackAll(PackAll(h))[i] == h[i] {
      UnpackPack(h[i]);
    }
  }

  /** Any enumeration of the packed set lists each subscriber once. */
  lemma EnumerationReaches(order: seq<U64>, s: set<Addr>)
    requires Enumerates(order, PackSet(s))
    ensures multiset(UnpackAll(order)) == multiset(s)
  {
    hide Pack, Unpack;
    var h := UnpackAll(order);
    forall i | 0 <= i < |order| ensures h[i] in s && Pack(h[i]) == order[i] {
      assert order[i] in order;
      var a :| a in s && Pack(a) == order[i];
      UnpackPack(a);
    }
    assert NoRepeats(h);
    forall a | a in s ensures a in h {
      PackMembership(s, a);
      assert Pack(a) in order;
      var i :| 0 <= i < |order| && order[i] == Pack(a);
      UnpackPack(a);
    }
    assert D.Members(h) == s;
    OnceEach(h);
  }

  // ------------------------------------------------- the reference broker

  /** What the host hands to the reference broker's socket: it is bound to one
      of the sixteen ports, and the host drops what does not verify. */
  function Inbox(f: seq<Byte>): Option<seq<Byte>> {
    if ChecksumsValid(f) && Be16(f, DPORT) == 49152 then Some(Payload(f)) else None
  }

  /** The messages it sends for a frame. */
  function Heard(topics: map<Text, set<Addr>>, f: seq<Byte>): set<R.Message> {
    match Inbox(f)
    case None => {}
    case Some(p) =>
      match R.Reads(p)
      case Publish(t, rest) => R.Forwards(topics, t, Encode(R.Rebuilt(t, rest)))
      case _ => {}
  }

  function Hear(s: R.State, f: seq<Byte>, sender: Addr): R.State {
    match Inbox(f) case None => s case Some(p) => R.Serve(s, R.Datagram(p, sender))
  }

  /** A PUBLISH never touches its topics; what it sends is `Heard`, counted. */
  lemma HearSends(s: R.State, f: seq<Byte>, t: Text, rest: seq<Byte>, sender: Addr)
    requires PublishFrame(f, t, rest)
    ensures Hear(s, f, sender).topics == s.topics && Hear(s, f, sender).replies == s.replies
    ensures Hear(s, f, sender).published == R.Add64(s.published, if Listening(f, t, rest) then 1 else 0)
    ensures Hear(s, f, sender).sent == s.sent + multiset(Heard(s.topics, f))
    ensures Hear(s, f, sender).cloned == R.Add64(s.cloned, |Heard(s.topics, f)|)
  {
    hide R.Parse, Decode, Encode, R.Rebuilt, ChecksumsValid, R.TrimEnd, R.RestText, R.AllBlank;
    if Inbox(f).Some? {
      R.PublishReads(t, rest);
    }
    Add64Nothing(s.cloned);
    Add64Nothing(s.published);
    assert multiset(Heard(s.topics, f) - Heard(s.topics, f)) == multiset{};
  }

  lemma Add64Nothing(c: U64)
    ensures R.Add64(c, 0) == c
  {
  }

  /** The frames the reference broker passes on byte for byte. */
  predicate Faithful(f: seq<Byte>) {
    Inbox(f).Some? && R.Unaltered(Inbox(f).value)
  }

  /** It sends the payload as it came, to each subscriber, exactly if nobody is
      subscribed or the datagram reaches it and is unaltered by decoding and
      trimming; it sends to each subscriber at all exactly if the datagram
      reaches it and holds more than whitespace after the topic. */
  lemma HeardIff(topics: map<Text, set<Addr>>, f: seq<Byte>, t: Text, rest: seq<Byte>)
    requires PublishFrame(f, t, rest)
    ensures var who := if t in topics then topics[t] else {};
            && (Heard(topics, f) == R.OutOf(who, Payload(f)) <==> who == {} || Faithful(f))
            && (Listening(f, t, rest) ==> exists bytes :: Heard(topics, f) == R.OutOf(who, bytes))
            && (!Listening(f, t, rest) ==> Heard(topics, f) == {})
  {
    hide R.Parse, Decode, Encode, R.Rebuilt, ChecksumsValid, R.Unaltered, R.TrimEnd, R.RestText, R.OutOf, R.AllBlank;
    var who := if t in topics then topics[t] else {};
    SendsNothing(Payload(f));
    if Inbox(f).Some? {
      R.PublishReads(t, rest);
      var d := R.RestText(t, rest);
      if R.AllBlank(d) {
        R.BlankIsAltered(t, rest);
        SendsSomething(who, Payload(f));
      } else {
        var bytes := Encode(R.Rebuilt(t, R.TrimEnd(d)));
        R.ForwardedUnchangedIff(Payload(f), t, R.TrimEnd(d));
        SendsSame(who, bytes, Payload(f));
        assert Heard(topics, f) == R.OutOf(who, bytes);
      }
    } else {
      SendsSomething(who, Payload(f));
    }
  }

  predicate Listening(f: seq<Byte>, t: Text, rest: seq<Byte>) {
    Inbox(f).Some? && ValidTopic(t) && !R.AllBlank(R.RestText(t, rest))
  }

  lemma SendsNothing(bytes: seq<Byte>)
    ensures R.OutOf({}, bytes) == {}
  {
  }

  lemma SendsSomething(who: set<Addr>, bytes: seq<Byte>)
    ensures R.OutOf(who, bytes) == {} <==> who == {}
  {
    if who != {} {
      var a :| a in who;
      assert R.Message(a, bytes) in R.OutOf(who, bytes);
    }
  }

  lemma SendsSame(who: set<Addr>, x: seq<Byte>, y: seq<Byte>)
    ensures R.OutOf(who, x) == R.OutOf(who, y) <==> who == {} || x == y
  {
    if who != {} && x != y {
      var a :| a in who;
      assert R.Message(a, x) in R.OutOf(who, x) && R.Message(a, x) !in R.OutOf(who, y);
    }
  }

  /** `sent` takes the payload of `f` to each of `who` once, and nowhere else. */
  predicate ReachesOnce(f: seq<Byte>, sent: seq<seq<Byte>>, who: set<Addr>) {
    && HeadersOk(f) && WellSized(f)
    && (forall g :: g in sent ==> HeadersOk(g) && WellSized(g) && Payload(g) == Payload(f))
    && multiset(Destinations(sent)) == multiset(who)
  }

  /** The XDP+TC broker: whatever copies it sends for whatever iteration order
      reach exactly the reference broker's subscribers, once each. */
  lemma TcBrokerDelivers(cs: seq<Cmd>, f: seq<Byte>, t: Text, rest: seq<Byte>, order: seq<U64>, sent: seq<seq<Byte>>)
    requires Legal(cs) && PublishFrame(f, t, rest) && KeyFor(t) in D.Run(Ops(cs)).subs
    requires Enumerates(order, D.Run(Ops(cs)).subs[KeyFor(t)]) && Sent(f, order, sent)
    ensures ReachesOnce(f, sent, Subscribers(cs, t))
  {
    hide Rewritten, Unpack, Destination, KeyFor, Legal;
    SetsAgree(cs);
    KeyMembership(Topics(cs), t);
    EnumerationReaches(order, Topics(cs)[t]);
    SentArrives(f, order, sent);
    assert Destinations(sent) == UnpackAll(order);
  }

  /** The clone broker: its clones carry the same payload to subscribers only,
      to all of them if the array has not overflowed, and to each of them once
      exactly when none subscribed twice since the last flush. */
  lemma CloneBrokerDelivers(cs: seq<Cmd>, f: seq<Byte>, t: Text, rest: seq<Byte>)
    requires Legal(cs) && PublishFrame(f, t, rest)
    ensures var sent := C.CloneCopies(f, C.Since(Ops(cs), KeyFor(t)));
            (forall g :: g in sent ==> HeadersOk(g) && WellSized(g) && Payload(g) == Payload(f)) &&
            D.Members(Destinations(sent)) <= Subscribers(cs, t) &&
            (|Since(cs, t)| <= C.MAX_SUBSCRIBERS ==> D.Members(Destinations(sent)) == Subscribers(cs, t)) &&
            (ReachesOnce(f, sent, Subscribers(cs, t)) <==> NoRepeats(Since(cs, t)))
  {
    hide Rewritten, Unpack, Pack, Destination, KeyFor, Legal, FastFrame, Since, Subscribers, NoRepeats, Kept, D.Members;
    var h := C.Since(Ops(cs), KeyFor(t));
    var sent := C.CloneCopies(f, h);
    ArraysAgree(cs, t);
    forall i | 0 <= i < |h| ensures Rewritten(f, sent[i], Unpack(h[i])) {
      FastFrameEffect(f, Unpack(h[i]), C.CLONE_UDP_WORDS);
    }
    SentArrives(f, h, sent);
    UnpackOfPack(Kept(Since(cs, t)));
    assert Destinations(sent) == UnpackAll(h) == Kept(Since(cs, t));
    KeptRepeats(cs, t);
    OnceEach(Kept(Since(cs, t)));
    KeptOnce(cs, t);
  }


  /** Sums that verify on arrival, and an even UDP length every recomputation
      reaches. */
  predicate Verifiable(f: seq<Byte>) {
    SumsValid(f) && UdpLen(f) % 2 == 0 && UdpLen(f) <= 256
  }

  lemma CopiesVerify(f: seq<Byte>, order: seq<U64>, h: seq<U64>)
    requires Verifiable(f)
    ensures F.SumsVerify(f)
    ensures forall g :: g in K.Copies(f, order) ==> SumsValid(g)
    ensures forall g :: g in C.CloneCopies(f, h) ==> SumsValid(g)
  {
    hide SlowFrame, FastFrame, Rewritten, IpSum, UdpSumTo, Unpack;
    ValidIff(f);
    HostSumIsRight(f, K.UDP_WORDS);
    hide SumsValid;
    forall i | 0 <= i < |order| ensures SumsValid(K.Copies(f, order)[i]) {
      SlowFrameDelivers(f, Unpack(order[i]));
    }
    forall i | 0 <= i < |h| ensures SumsValid(C.CloneCopies(f, h)[i]) {
      FastFrameDelivers(f, Unpack(h[i]), C.CLONE_UDP_WORDS);
    }
  }

  lemma NobodyReached(cs: seq<Cmd>, f: seq<Byte>, t: Text)
    requires HeadersOk(f) && WellSized(f) && t !in Topics(cs)
    ensures ReachesOnce(f, [], Subscribers(cs, t))
  {
  }

  // ------------------------------------------------------ one PUBLISH

  /** Three-broker equivalence, exactly.  After a legal run, the XDP+TC broker
      takes the payload of a PUBLISH to each of the reference broker's
      subscribers once; all three brokers do if and only if nobody subscribed
      twice since the last flush and the datagram, if anyone is subscribed,
      reaches the reference broker in a form that decoding, trimming and
      encoding leave alone. */
  lemma ThreeBrokersAgreeIff(cs: seq<Cmd>, f: seq<Byte>, t: Text, rest: seq<Byte>, order: seq<U64>, sent: seq<seq<Byte>>)
    requires Legal(cs) && PublishFrame(f, t, rest) && KeyFor(t) in D.Run(Ops(cs)).subs
    requires Enumerates(order, D.Run(Ops(cs)).subs[KeyFor(t)]) && Sent(f, order, sent)
    ensures t in Topics(cs)
    ensures var who := Subscribers(cs, t);
            && ReachesOnce(f, sent, who)
            && (ReachesOnce(f, C.CloneCopies(f, C.Since(Ops(cs), KeyFor(t))), who)
                && Heard(Topics(cs), f) == R.OutOf(who, Payload(f))
                <==> NoRepeats(Since(cs, t)) && (who == {} || Faithful(f)))
  {
    SetsAgree(cs);
    KeyMembership(Topics(cs), t);
    hide KeyFor, Rewritten, ReachesOnce, Payload, Heard, Legal, NoRepeats, Faithful, PublishFrame;
    TcBrokerDelivers(cs, f, t, rest, order, sent);
    CloneBrokerDelivers(cs, f, t, rest);
    HeardIff(Topics(cs), f, t, rest);
  }

  /** What one PUBLISH does in the two eBPF brokers, against the reference
      broker's subscribers `who`. */
  ghost predicate Served(cs: seq<Cmd>, f: seq<Byte>, t: Text, sent: seq<seq<Byte>>, clones: seq<seq<Byte>>) {
    && ReachesOnce(f, sent, Subscribers(cs, t))
    && (ReachesOnce(f, clones, Subscribers(cs, t)) <==> NoRepeats(Since(cs, t)))
    && (forall g :: g in clones ==> HeadersOk(g) && Destination(g) in Subscribers(cs, t))
    && (Verifiable(f) ==> forall g :: g in sent || g in clones ==> SumsValid(g))
  }

  /** One frame through the XDP and TC hooks, in the state one legal run of
      commands left them in. */
  method PublishToHooks(kernel: K.KernelPrograms, f: seq<Byte>, ghost cs: seq<Cmd>, ghost t: Text, ghost rest: seq<Byte>)
    returns (ghost sent: seq<seq<Byte>>)
    requires Legal(cs) && PublishFrame(f, t, rest) && |Since(cs, t)| < 0x1_0000_0000
    requires D.State(kernel.maps.subs, kernel.maps.count, kernel.maps.first) == D.Run(Ops(cs))
    requires kernel.cloneCounter == K.AddMany(0, |kernel.wire|)
    modifies kernel
    ensures kernel.wire == old(kernel.wire) + sent && ReachesOnce(f, sent, Subscribers(cs, t))
    ensures Verifiable(f) ==> forall g :: g in sent ==> SumsValid(g)
    ensures kernel.cloneCounter == K.AddMany(0, |kernel.wire|)
  {
    hide Legal, Since, Subscribers, ReachesOnce, KeyFor, Rewritten, Topics, PublishKey, SumsValid;
    hide D.Run, D.Since, FastFrame, Verifiable, K.Copies, K.Decide, K.AddMany, Enumerates;
    var pkt := Packet(f);
    ghost var wire := kernel.wire;
    FrameKey(f, t, rest);
    HistoriesAgree(cs, t);
    var taken, order := F.Receive(kernel, pkt, Ops(cs));
    sent := kernel.wire[|wire|..];
    if Verifiable(f) {
      CopiesVerify(f, order, []);
    }
    SetsAgree(cs);
    KeyMembership(Topics(cs), t);
    if taken {
      TcBrokerDelivers(cs, f, t, rest, order, sent);
    } else {
      NobodyReached(cs, f, t);
      assert sent == [];
    }
  }

  /** The same frame through the clone program. */
  method PublishToClones(clone: C.CloneKernel, f: seq<Byte>, ghost cs: seq<Cmd>, ghost t: Text, ghost rest: seq<Byte>)
    returns (ghost clones: seq<seq<Byte>>)
    requires Legal(cs) && PublishFrame(f, t, rest) && clone.maps.Contents() == C.Run(Ops(cs))
    modifies clone
    ensures clone.wire == old(clone.wire) + clones
    ensures ReachesOnce(f, clones, Subscribers(cs, t)) <==> NoRepeats(Since(cs, t))
    ensures forall g :: g in clones ==> HeadersOk(g) && Destination(g) in Subscribers(cs, t)
    ensures Verifiable(f) ==> forall g :: g in clones ==> SumsValid(g)
  {
    hide Legal, Since, NoRepeats, Subscribers, ReachesOnce, KeyFor, Rewritten, Topics, PublishKey, SumsValid;
    hide C.Run, C.Since, FastFrame, Verifiable, Destination;
    var pkt := Packet(f);
    ghost var wire := clone.wire;
    FrameKey(f, t, rest);
    var verdicts := clone.Publish(pkt, Ops(cs));
    clones := C.CloneCopies(f, C.Since(Ops(cs), KeyFor(t)));
    CloneBrokerDelivers(cs, f, t, rest);
    CloneDestinations(clones, Subscribers(cs, t));
    if Verifiable(f) {
      CopiesVerify(f, [], C.Since(Ops(cs), KeyFor(t)));
    }
  }

  /** Both, side by side. */
  method PublishToAll(kernel: K.KernelPrograms, clone: C.CloneKernel, f: seq<Byte>,
                      ghost cs: seq<Cmd>, ghost t: Text, ghost rest: seq<Byte>)
    returns (ghost sent: seq<seq<Byte>>, ghost clones: seq<seq<Byte>>)
    requires Legal(cs) && PublishFrame(f, t, rest) && |Since(cs, t)| < 0x1_0000_0000
    requires D.State(kernel.maps.subs, kernel.maps.count, kernel.maps.first) == D.Run(Ops(cs))
    requires clone.maps.Contents() == C.Run(Ops(cs))
    requires kernel.cloneCounter == K.AddMany(0, |kernel.wire|)
    modifies kernel, clone
    ensures kernel.wire == old(kernel.wire) + sent && clone.wire == old(clone.wire) + clones
    ensures Served(cs, f, t, sent, clones)
    ensures kernel.cloneCounter == K.AddMany(0, |kernel.wire|)
  {
    hide Legal, Since, NoRepeats, Subscribers, ReachesOnce, PublishFrame, SumsValid, C.Run, D.Run, Verifiable, K.AddMany;
    sent := PublishToHooks(kernel, f, cs, t, rest);
    clones := PublishToClones(clone, f, cs, t, rest);
  }

  method Packet(f: seq<Byte>) returns (pkt: array<Byte>)
    ensures fresh(pkt) && pkt[..] == f
  {
    pkt := new Byte[|f|](i requires 0 <= i < |f| => f[i]);
  }

  lemma CloneDestinations(clones: seq<seq<Byte>>, who: set<Addr>)
    requires (forall g :: g in clones ==> HeadersOk(g) && |g| >= PAYLOAD) && D.Members(Destinations(clones)) <= who
    ensures forall g :: g in clones ==> Destination(g) in who
  {
    forall g | g in clones ensures Destination(g) in who {
      var i :| 0 <= i < |clones| && clones[i] == g;
      assert Destinations(clones)[i] == Destination(g);
    }
  }
}
