/** The receive loop both daemons share: one datagram read, recognised by its
    command word, applied to the maps and acknowledged. */
module DaemonMain {
  import opened Words
  import opened Frame
  import opened TopicKey
  import Protocol
  import D = Daemon
  import C = CloneBroker

  const REGISTER: seq<Byte> := Protocol.REGISTER + [SPACE]
  const SUBSCRIBE: seq<Byte> := Protocol.SUBSCRIBE + [SPACE]
  const FLUSH: seq<Byte> := Protocol.FLUSH + [SPACE]

  const RECV_BUFFER: nat := 1024

  /** The reply, with the topic it repeats; a topic that is too long leaves the
      buffer it is printed from unterminated. */
  datatype Ack = Silent | RegAck(topic: Key) | SubAck(subject: Option<Key>) | Flushed

  /** What fits the buffer, one byte short for the terminating NUL. */
  function Received(datagram: seq<Byte>): (r: seq<Byte>)
    ensures |r| < RECV_BUFFER
  {
    if |datagram| < RECV_BUFFER then datagram else datagram[..RECV_BUFFER - 1]
  }

  /** What a datagram asks of the maps, if its topic can be used at all. */
  function Dispatch(msg: seq<Byte>, from: Addr): Option<D.Op> {
    if REGISTER <= msg then
      match DaemonKey(msg[|REGISTER|..]) case None => None case Some(k) => Some(D.Register(k))
    else if SUBSCRIBE <= msg then
      match DaemonKey(msg[|SUBSCRIBE|..]) case None => None case Some(k) => Some(D.Subscribe(k, Pack(from)))
    else if FLUSH <= msg then
      match DaemonKey(msg[|FLUSH|..]) case None => None case Some(k) => Some(D.Flush(k))
    else None
  }

  /** REGACK only for a topic that is registered afterwards, SUBACK and FLUSHED
      whether or not anything was done. */
  function Reply(msg: seq<Byte>, registered: set<Key>): Ack {
    if REGISTER <= msg then
      match DaemonKey(msg[|REGISTER|..])
      case None => Silent
      case Some(k) => if k in registered then RegAck(k) else Silent
    else if SUBSCRIBE <= msg then SubAck(DaemonKey(msg[|SUBSCRIBE|..]))
    else if FLUSH <= msg then Flushed
    else Silent
  }

  /** `recvfrom` and the terminating NUL. */
  method ReceiveInto(datagram: seq<Byte>) returns (buf: array<Byte>)
    ensures fresh(buf) && buf.Length == |Received(datagram)| + 1 && buf[buf.Length - 1] == NUL
    ensures buf[..buf.Length - 1] == Received(datagram)
  {
    var kept := Received(datagram);
    buf := new Byte[|kept| + 1](_ => NUL);
    forall i | 0 <= i < |kept| {
      buf[i] := kept[i];
    }
  }

  /** `strncmp` against a command word, on a NUL-terminated buffer. */
  method HasPrefix(buf: array<Byte>, prefix: seq<Byte>) returns (r: bool)
    requires buf.Length > 0 && buf[buf.Length - 1] == NUL && NUL !in prefix
    ensures r <==> prefix <= buf[..buf.Length - 1]
  {
    for i := 0 to |prefix|
      invariant i <= buf.Length - 1 && forall k :: 0 <= k < i ==> buf[k] == prefix[k]
    {
      assert prefix[i] in prefix;
      if buf[i] != prefix[i] {
        assert i < buf.Length - 1 ==> buf[..buf.Length - 1][i] != prefix[i];
        return false;
      }
    }
    assert forall k :: 0 <= k < |prefix| ==> buf[..buf.Length - 1][k] == prefix[k];
    return true;
  }

  /** The topic text after the command word, as a map key. */
  method ReadKey(buf: array<Byte>, raw: nat) returns (key: Option<Key>)
    requires raw < buf.Length && buf[buf.Length - 1] == NUL
    ensures key == DaemonKey(buf[..buf.Length - 1][raw..])
  {
    hide DaemonKey, Pad, Until;
    var topicKey := new Byte[KEY_SIZE](_ => NUL);
    assert topicKey[..] == Zeros(KEY_SIZE);
    ghost var text := buf[raw..buf.Length - 1];
    assert buf[..buf.Length - 1][raw..] == text;
    var ok := ReadTopic(buf, raw, topicKey);
    assert buf[raw..buf.Length - 1] == text;
    key := if ok then Some(KeyOf(topicKey[..])) else None;
    assert !ok ==> DaemonKey(text) == None;
  }

  /** One round of the loop in `bpf_broker`. `from` is the socket address as
      the kernel stores it; the daemon converts it to host order.
      `created`: an inner map, should one be needed, could be made. */
  method HandleDatagram(process: D.DaemonProcess, datagram: seq<Byte>, from: Addr, created: bool) returns (ack: Ack)
    modifies process.maps
    ensures process.Contents() == match Dispatch(Received(datagram), from)
                                  case None => old(process.Contents())
                                  case Some(op) => if op.Register? && !created then old(process.Contents())
                                                   else D.Apply(old(process.Contents()), op)
    ensures ack == Reply(Received(datagram), process.maps.subs.Keys)
  {
    hide DaemonKey, D.PackHost, D.Swap32, Swap16, D.AddTopic, D.AddSubscriber, D.FlushTopic, D.Completes, Pack;
    PackHostOfSender(from);
    CommandsDiffer(Received(datagram));
    var buf := ReceiveInto(datagram);
    var register := HasPrefix(buf, REGISTER);
    var subscribe := HasPrefix(buf, SUBSCRIBE);
    var flush := HasPrefix(buf, FLUSH);
    if register {
      var key := ReadKey(buf, |REGISTER|);
      if key == None {
        return Silent;
      }
      var ret := process.AddTopicToMaps(key.value, created);
      return if ret == 0 then RegAck(key.value) else Silent;
    } else if subscribe {
      var key := ReadKey(buf, |SUBSCRIBE|);
      if key.Some? {
        var _ := process.AddSubscriberToMaps(key.value, D.Swap32(from.ip), Swap16(from.port));
      }
      return SubAck(key);
    } else if flush {
      var key := ReadKey(buf, |FLUSH|);
      if key.Some? {
        var _ := process.FlushTopicInMaps(key.value);
      }
      return Flushed;
    }
    return Silent;
  }

  /** The same round in `bpf_broker_xdp`. */
  method HandleDatagramXdp(maps: C.CloneMaps, datagram: seq<Byte>, from: Addr, created: bool) returns (ack: Ack)
    modifies maps
    ensures maps.Contents() == match Dispatch(Received(datagram), from)
                               case None => old(maps.Contents())
                               case Some(op) => if op.Register? && !created then old(maps.Contents())
                                                else C.Apply(old(maps.Contents()), op)
    ensures ack == Reply(Received(datagram), maps.arrays.Keys)
  {
    hide DaemonKey, D.PackHost, D.Swap32, Swap16, C.AddTopic, C.AddSubscriber, C.FlushTopic, Pack;
    PackHostOfSender(from);
    CommandsDiffer(Received(datagram));
    var buf := ReceiveInto(datagram);
    var register := HasPrefix(buf, REGISTER);
    var subscribe := HasPrefix(buf, SUBSCRIBE);
    var flush := HasPrefix(buf, FLUSH);
    if register {
      var key := ReadKey(buf, |REGISTER|);
      if key == None {
        return Silent;
      }
      var ret := maps.AddTopicToMaps(key.value, created);
      return if ret == 0 then RegAck(key.value) else Silent;
    } else if subscribe {
      var key := ReadKey(buf, |SUBSCRIBE|);
      if key.Some? {
        var _ := maps.AddSubscriberToMaps(key.value, D.Swap32(from.ip), Swap16(from.port));
      }
      return SubAck(key);
    } else if flush {
      var key := ReadKey(buf, |FLUSH|);
      if key.Some? {
        maps.FlushTopicInMaps(key.value);
      }
      return Flushed;
    }
    return Silent;
  }

  /** The round trip through host order is the identity on the packed form. */
  lemma PackHostOfSender(a: Addr)
    ensures D.PackHost(D.Swap32(a.ip), Swap16(a.port)) == Pack(a)
  {
    hide D.Swap32, Swap16;
    D.SwapTwice(a.ip, a.port);
  }

  /** At most one command word matches. */
  lemma CommandsDiffer(msg: seq<Byte>)
    ensures !(REGISTER <= msg && SUBSCRIBE <= msg) && !(REGISTER <= msg && FLUSH <= msg) && !(SUBSCRIBE <= msg && FLUSH <= msg)
  {
    if |msg| > 0 {
      assert REGISTER[0] == 82 && SUBSCRIBE[0] == 83 && FLUSH[0] == 70;
    }
  }

  // ----------------------------------------- what a datagram asks, spelt out

  /** The three command words, each with its blank. */
  lemma WordsSpelt()
    ensures REGISTER == Protocol.Ascii("REGISTER ") && SUBSCRIBE == Protocol.Ascii("SUBSCRIBE ") && FLUSH == Protocol.Ascii("FLUSH ")
  {
  }

  /** A topic the daemon reads in full, and what may follow it. */
  predicate TopicText(t: seq<Byte>, tail: seq<Byte>) {
    && (forall i :: 0 <= i < |t| ==> t[i] != 0 && t[i] != 10 && t[i] != 13)
    && (tail == [] || tail[0] == 0 || tail[0] == 10 || tail[0] == 13)
  }

  lemma TopicTextKey(t: seq<Byte>, tail: seq<Byte>)
    requires TopicText(t, tail)
    ensures DaemonKey(t + tail) == if |t| < 20 then Some(Pad(t)) else None
  {
    UntilIs(t + tail, DAEMON_STOPS, |t|);
    assert (t + tail)[..|t|] == t;
  }

  /** Every datagram that spells a command: topics of up to 19 bytes are read in
      full, blanks included, longer ones ask for nothing, and the replies are a
      REGACK if the topic is registered afterwards, a SUBACK and a FLUSHED in any
      case. */
  lemma CommandIs(t: seq<Byte>, tail: seq<Byte>, from: Addr, registered: set<Key>)
    requires TopicText(t, tail)
    ensures Dispatch(REGISTER + t + tail, from) == if |t| < 20 then Some(D.Register(Pad(t))) else None
    ensures Dispatch(SUBSCRIBE + t + tail, from) == if |t| < 20 then Some(D.Subscribe(Pad(t), Pack(from))) else None
    ensures Dispatch(FLUSH + t + tail, from) == if |t| < 20 then Some(D.Flush(Pad(t))) else None
    ensures Reply(REGISTER + t + tail, registered) == if |t| < 20 && Pad(t) in registered then RegAck(Pad(t)) else Silent
    ensures Reply(SUBSCRIBE + t + tail, registered) == SubAck(if |t| < 20 then Some(Pad(t)) else None)
    ensures Reply(FLUSH + t + tail, registered) == Flushed
  {
    hide DaemonKey, Pack;
    TopicTextKey(t, tail);
    After(REGISTER, t, tail);
    After(SUBSCRIBE, t, tail);
    After(FLUSH, t, tail);
    CommandsDiffer(REGISTER + t + tail);
    CommandsDiffer(SUBSCRIBE + t + tail);
    CommandsDiffer(FLUSH + t + tail);
  }

  lemma After(word: seq<Byte>, t: seq<Byte>, tail: seq<Byte>)
    ensures word <= word + t + tail && (word + t + tail)[|word|..] == t + tail
  {
  }

  /** The receive buffer cuts no command short: what it cuts off decides neither
      what is done nor what is answered. */
  lemma CutLosesNothing(datagram: seq<Byte>, from: Addr, registered: set<Key>)
    ensures Dispatch(Received(datagram), from) == Dispatch(datagram, from)
    ensures Reply(Received(datagram), registered) == Reply(datagram, registered)
  {
    hide DaemonKey, Pack;
    CutAfter(datagram, REGISTER);
    CutAfter(datagram, SUBSCRIBE);
    CutAfter(datagram, FLUSH);
  }

  lemma CutAfter(datagram: seq<Byte>, word: seq<Byte>)
    requires |word| < 1000
    ensures word <= Received(datagram) <==> word <= datagram
    ensures word <= datagram ==> DaemonKey(Received(datagram)[|word|..]) == DaemonKey(datagram[|word|..])
  {
    hide DaemonKey;
    if word <= datagram {
      assert Received(datagram)[..|word|] == datagram[..|word|];
      CutKey(datagram, |word|);
    }
  }

  lemma CutKey(datagram: seq<Byte>, n: nat)
    requires n < 1000 && n <= |datagram|
    ensures n <= |Received(datagram)| && DaemonKey(Received(datagram)[n..]) == DaemonKey(datagram[n..])
  {
    var whole, cut := datagram[n..], Received(datagram)[n..];
    assert cut == whole[..|cut|];
    var m := Until(cut, DAEMON_STOPS);
    assert m < |cut| ==> cut[m] == whole[m];
    if m < |cut| {
      UntilIs(whole, DAEMON_STOPS, m);
      assert whole[..m] == cut[..m];
    } else if |cut| == |whole| {
      assert cut == whole;
    } else {
      assert forall i :: 0 <= i < m ==> whole[i] == cut[i];
    }
  }

  /** A datagram that begins with none of the three asks for nothing and gets no
      reply. */
  lemma NoCommand(msg: seq<Byte>, from: Addr, registered: set<Key>)
    requires !(REGISTER <= msg) && !(SUBSCRIBE <= msg) && !(FLUSH <= msg)
    ensures Dispatch(msg, from) == None && Reply(msg, registered) == Silent
  {
  }

  /** Registration: in any state, a topic is registered after its REGISTER exactly
      if it was before or fewer than ten were, in either broker. */
  lemma RegisteredAfterIff(s: D.State, c: C.State, k: Key)
    ensures k in D.Apply(s, D.Register(k)).subs <==> k in s.subs || |s.subs| < 10
    ensures k in C.Apply(c, D.Register(k)).arrays <==> k in c.arrays || |c.arrays| < 10
  {
  }

  /** Subscription: in any state a SUBSCRIBE puts its sender into the set exactly
      if the topic is registered and the sender is there already or fewer than
      256 are; the clone broker takes it into the next slot exactly if the topic
      is registered, one of the 2048 is left and its count can be kept. */
  lemma SubscribeTakenIff(s: D.State, c: C.State, k: Key, p: U64)
    ensures var t := D.Apply(s, D.Subscribe(k, p));
            k in t.subs && p in t.subs[k] <==> k in s.subs && (p in s.subs[k] || |s.subs[k]| < 256)
    ensures var d, n := C.Apply(c, D.Subscribe(k, p)), C.CountOf(c, k);
            var taken := k in c.arrays && n < 2048 && (k in c.count || |c.count| < 10);
            C.CountOf(d, k) == (if taken then n + 1 else n) && (taken ==> d.arrays[k][n] == p)
  {
  }
}
