/** `mqttsn-udp-sr`: the plain broker, a map from topic to a set of socket
    addresses.  It serves as the specification of what the others deliver. */
module ReferenceBroker {
  import opened Words
  import opened Frame
  import opened TopicKey
  import opened Utf8
  import Protocol

  const BLANK: Scalar := 32
  const RECV_BUFFER: nat := 4096

  /** Unicode White_Space, as `str::trim` uses it. */
  predicate IsWhitespace(c: int) {
    || 9 <= c <= 13 || c == 32 || c == 0x85 || c == 0xA0 || c == 0x1680
    || 0x2000 <= c <= 0x200A || c == 0x2028 || c == 0x2029 || c == 0x202F || c == 0x205F || c == 0x3000
  }

  /** The 25 characters of that property. */
  const WHITE_SPACE: seq<int> := [9, 10, 11, 12, 13, 0x20, 0x85, 0xA0, 0x1680, 0x2000, 0x2001, 0x2002, 0x2003, 0x2004, 0x2005,
                                  0x2006, 0x2007, 0x2008, 0x2009, 0x200A, 0x2028, 0x2029, 0x202F, 0x205F, 0x3000]

  lemma WhitespaceIs(c: int)
    ensures IsWhitespace(c) <==> c in WHITE_SPACE
  {
    assert forall i :: 0 <= i < 25 ==> IsWhitespace(WHITE_SPACE[i]);
    assert 9 <= c <= 13 ==> WHITE_SPACE[c - 9] == c;
    assert 0x2000 <= c <= 0x200A ==> WHITE_SPACE[c - 0x2000 + 9] == c;
  }

  function TrimStart(t: Text): Text {
    if t != [] && IsWhitespace(t[0]) then TrimStart(t[1..]) else t
  }

  function TrimEnd(t: Text): Text {
    if t != [] && IsWhitespace(t[|t| - 1]) then TrimEnd(t[..|t| - 1]) else t
  }

  function Trim(t: Text): Text {
    TrimEnd(TrimStart(t))
  }

  datatype Parts = Parts(verb: Text, second: Option<Text>, rest: Option<Text>)

  /** `splitn(3, ' ')`: the third part keeps its blanks. */
  function SplitN3(t: Text): Parts {
    var n := Until(t, {BLANK});
    if n == |t| then Parts(t, None, None)
    else
      var r := t[n + 1..];
      var m := Until(r, {BLANK});
      if m == |r| then Parts(t[..n], Some(r), None)
      else Parts(t[..n], Some(r[..m]), Some(r[m + 1..]))
  }

  datatype Command = Register(topic: Text) | Subscribe(topic: Text) | Publish(topic: Text, rest: Text) | Flush(topic: Text) | Ignored

  function Parse(msg: Text): Command {
    var p := SplitN3(Trim(msg));
    if p.second.None? then Ignored
    else if p.verb == Protocol.REGISTER then Register(p.second.value)
    else if p.verb == Protocol.SUBSCRIBE then Subscribe(p.second.value)
    else if p.verb == Protocol.PUBLISH && p.rest.Some? then Publish(p.second.value, p.rest.value)
    else if p.verb == Protocol.FLUSH then Flush(p.second.value)
    else Ignored
  }

  /** `recv_from` into the buffer: what does not fit is lost. */
  function Received(datagram: seq<Byte>): seq<Byte> {
    if |datagram| <= RECV_BUFFER then datagram else datagram[..RECV_BUFFER]
  }

  /** How one datagram reads. */
  function Reads(datagram: seq<Byte>): Command {
    Parse(Decode(Received(datagram)))
  }

  datatype Message = Message(to: Addr, bytes: seq<Byte>)

  datatype State = State(topics: map<Text, set<Addr>>, published: U64, cloned: U64,
                         sent: multiset<Message>, replies: seq<Message>)

  const EMPTY := State(map[], 0, 0, multiset{}, [])

  function Add64(c: U64, n: nat): U64 {
    (c + n) % 0x1_0000_0000_0000_0000
  }

  /** What a PUBLISH sends: one message per subscriber of the topic. */
  function Forwards(topics: map<Text, set<Addr>>, topic: Text, bytes: seq<Byte>): set<Message> {
    if topic in topics then OutOf(topics[topic], bytes) else {}
  }

  function Rebuilt(topic: Text, rest: Text): Text {
    Protocol.PUBLISH + [BLANK] + topic + [BLANK] + rest
  }

  function Apply(s: State, msg: Text, sender: Addr): State {
    match Parse(msg)
    case Register(t) =>
      s.(topics := if t in s.topics then s.topics else s.topics[t := {}], replies := s.replies + [Message(sender, Protocol.REGACK)])
    case Subscribe(t) =>
      s.(topics := s.topics[t := (if t in s.topics then s.topics[t] else {}) + {sender}],
         replies := s.replies + [Message(sender, Protocol.SUBACK)])
    case Publish(t, rest) =>
      var out := Forwards(s.topics, t, Encode(Rebuilt(t, rest)));
      s.(published := Add64(s.published, 1), cloned := Add64(s.cloned, |out|), sent := s.sent + multiset(out))
    case Flush(t) =>
      s.(topics := if t in s.topics then s.topics[t := {}] else s.topics, replies := s.replies + [Message(sender, Protocol.FLUSHED)])
    case Ignored => s
  }

  class Broker {
    var topics: map<Text, set<Addr>>
    var publishCounter: U64
    var cloneCounter: U64
    var sent: seq<Message>
    var replies: seq<Message>

    constructor ()
      ensures Contents() == EMPTY
    {
      topics, publishCounter, cloneCounter, sent, replies := map[], 0, 0, [], [];
    }

    function Contents(): State
      reads this
    {
      State(topics, publishCounter, cloneCounter, multiset(sent), replies)
    }

    /** One round of the receive loop. */
    method OnDatagram(datagram: seq<Byte>, sender: Addr)
      modifies this
      ensures Contents() == Apply(old(Contents()), Decode(Received(datagram)), sender)
    {
      HandleMessage(Decode(Received(datagram)), sender);
    }

    method HandleMessage(msg: Text, sender: Addr)
      modifies this
      ensures Contents() == Apply(old(Contents()), msg, sender)
    {
      hide Trim, SplitN3, OutOf, Add64, Encode, Rebuilt;
      match Parse(msg) {
        case Register(topic) =>
          if topic !in topics {
            topics := topics[topic := {}];
          }
          replies := replies + [Message(sender, Protocol.REGACK)];
        case Subscribe(topic) =>
          if topic !in topics {
            topics := topics[topic := {}];
          }
          topics := topics[topic := topics[topic] + {sender}];
          replies := replies + [Message(sender, Protocol.SUBACK)];
        case Publish(topic, rest) =>
          var rawPayload := Encode(Rebuilt(topic, rest));
          publishCounter := Add64(publishCounter, 1);
          NoneOut(rawPayload, cloneCounter);
          if topic in topics {
            ForwardToAll(topics[topic], rawPayload);
          }
        case Flush(topic) =>
          if topic in topics {
            topics := topics[topic := {}];
          }
          replies := replies + [Message(sender, Protocol.FLUSHED)];
        case Ignored =>
      }
    }

    /** The loop over a set's members, in no particular order. */
    method ForwardToAll(subs: set<Addr>, bytes: seq<Byte>)
      modifies this`sent, this`cloneCounter
      ensures multiset(sent) == old(multiset(sent)) + multiset(OutOf(subs, bytes))
      ensures cloneCounter == Add64(old(cloneCounter), |OutOf(subs, bytes)|)
    {
      hide OutOf, Add64;
      var rest := subs;
      NoneOut(bytes, cloneCounter);
      assert subs - rest == {};
      while rest != {}
        invariant rest <= subs
        invariant multiset(sent) == old(multiset(sent)) + multiset(OutOf(subs - rest, bytes))
        invariant cloneCounter == Add64(old(cloneCounter), |OutOf(subs - rest, bytes)|)
        decreases rest
      {
        var sub :| sub in rest;
        OneMoreOut(subs - rest, sub, bytes);
        Add64Step(old(cloneCounter), |OutOf(subs - rest, bytes)|);
        assert subs - (rest - {sub}) == subs - rest + {sub};
        sent := sent + [Message(sub, bytes)];
        cloneCounter := Add64(cloneCounter, 1);
        rest := rest - {sub};
      }
      assert subs - rest == subs;
    }
  }

  lemma Add64Step(c: U64, n: nat)
    ensures Add64(c, n + 1) == Add64(Add64(c, n), 1)
  {
  }

  function OutOf(subs: set<Addr>, bytes: seq<Byte>): set<Message> {
    set a | a in subs :: Message(a, bytes)
  }

  lemma NoneOut(bytes: seq<Byte>, c: U64)
    ensures OutOf({}, bytes) == {} && Add64(c, 0) == c
  {
  }

  lemma OneMoreOut(subs: set<Addr>, a: Addr, bytes: seq<Byte>)
    requires a !in subs
    ensures OutOf(subs + {a}, bytes) == OutOf(subs, bytes) + {Message(a, bytes)}
    ensures Message(a, bytes) !in OutOf(subs, bytes)
    ensures multiset(OutOf(subs + {a}, bytes)) == multiset(OutOf(subs, bytes)) + multiset{Message(a, bytes)}
    ensures |OutOf(subs + {a}, bytes)| == |OutOf(subs, bytes)| + 1
  {
  }

  lemma {:induction false} OutSize(subs: set<Addr>, bytes: seq<Byte>)
    ensures |OutOf(subs, bytes)| == |subs|
  {
    if subs != {} {
      var a :| a in subs;
      OutSize(subs - {a}, bytes);
      OneMoreOut(subs - {a}, a, bytes);
      assert subs - {a} + {a} == subs;
    }
  }

  // ---------------------------------------------------- forwarding identity

  predicate AllBlank(t: Text) {
    forall c :: c in t ==> IsWhitespace(c)
  }

  /** Text that trimming does not touch. */
  predicate Unpadded(t: Text) {
    t != [] && !IsWhitespace(t[0]) && !IsWhitespace(t[|t| - 1])
  }

  lemma {:induction false} TrimEndSplits(t: Text)
    ensures TrimEnd(t) <= t && AllBlank(t[|TrimEnd(t)|..])
    ensures TrimEnd(t) == [] || !IsWhitespace(TrimEnd(t)[|TrimEnd(t)| - 1])
    ensures AllBlank(t) ==> TrimEnd(t) == []
    ensures TrimEnd(t) == [] ==> AllBlank(t)
  {
    if t != [] && IsWhitespace(t[|t| - 1]) {
      var u := t[..|t| - 1];
      TrimEndSplits(u);
      assert t[|TrimEnd(u)|..] == u[|TrimEnd(u)|..] + [t[|t| - 1]];
    }
  }

  lemma {:induction false} TrimStartSplits(t: Text)
    ensures |TrimStart(t)| <= |t| && TrimStart(t) == t[|t| - |TrimStart(t)|..] && AllBlank(t[..|t| - |TrimStart(t)|])
    ensures TrimStart(t) == [] || !IsWhitespace(TrimStart(t)[0])
  {
    if t != [] && IsWhitespace(t[0]) {
      var u := t[1..];
      TrimStartSplits(u);
      var n := |u| - |TrimStart(u)|;
      assert t[..n + 1] == [t[0]] + u[..n];
    }
  }

  /** Trimming cuts whitespace off both ends, and all of it. */
  lemma TrimSplits(t: Text) returns (lead: Text, tail: Text)
    ensures t == lead + Trim(t) + tail && AllBlank(lead) && AllBlank(tail)
    ensures Trim(t) == [] || Unpadded(Trim(t))
  {
    hide IsWhitespace, TrimStart, TrimEnd, AllBlank;
    var u := TrimStart(t);
    TrimStartSplits(t);
    TrimEndSplits(u);
    lead, tail := t[..|t| - |u|], u[|Trim(t)|..];
    assert t == lead + u && u == Trim(t) + tail;
  }

  /** ... and the result is determined by that. */
  lemma TrimIs(lead: Text, core: Text, tail: Text)
    requires Unpadded(core) && AllBlank(lead) && AllBlank(tail)
    ensures Trim(lead + core + tail) == core
  {
    TrimStartIs(lead, core + tail);
    assert lead + (core + tail) == lead + core + tail;
    TrimEndIs(core, tail);
  }

  lemma {:induction false} TrimStartIs(lead: Text, t: Text)
    requires AllBlank(lead) && t != [] && !IsWhitespace(t[0])
    ensures TrimStart(lead + t) == t
  {
    if lead == [] {
      assert lead + t == t;
    } else {
      assert lead[0] in lead;
      assert (lead + t)[1..] == lead[1..] + t;
      TrimStartIs(lead[1..], t);
    }
  }

  lemma {:induction false} TrimEndIs(core: Text, tail: Text)
    requires AllBlank(tail) && core != [] && !IsWhitespace(core[|core| - 1])
    ensures TrimEnd(core + tail) == core
  {
    if tail == [] {
      assert core + tail == core;
    } else {
      var n := |tail| - 1;
      assert tail[n] in tail;
      assert (core + tail)[..|core + tail| - 1] == core + tail[..n];
      TrimEndIs(core, tail[..n]);
    }
  }

  lemma TrimUntouched(t: Text)
    ensures |Trim(t)| <= |t|
    ensures Unpadded(t) || |Trim(t)| == |t| ==> Trim(t) == t
    ensures t != [] && Trim(t) == t ==> Unpadded(t)
  {
    var lead, tail := TrimSplits(t);
    if Unpadded(t) {
      TrimIs([], t, []);
      assert [] + t + [] == t;
    }
  }

  /** Split into at most three parts and rejoined is the identity, and the only
      text that splits into given parts is their join. */
  lemma PublishIffRebuilt(msg: Text, topic: Text, rest: Text)
    ensures Parse(msg) == Publish(topic, rest) <==> BLANK !in topic && Rebuilt(topic, rest) == Trim(msg)
  {
    hide Trim, SplitN3;
    var t := Trim(msg);
    JoinOfSplit(t);
    if BLANK !in topic && Rebuilt(topic, rest) == t {
      SplitOfJoin(Protocol.PUBLISH, topic, rest);
    }
  }

  lemma JoinOfSplit(t: Text)
    ensures var p := SplitN3(t);
            p.second.Some? && p.rest.Some? ==>
              BLANK !in p.second.value && t == p.verb + [BLANK] + p.second.value + [BLANK] + p.rest.value
  {
    hide Until;
    var n := Until(t, {BLANK});
    if n < |t| {
      var r := t[n + 1..];
      var m := Until(r, {BLANK});
      assert t == t[..n] + [BLANK] + r;
      if m < |r| {
        assert r == r[..m] + [BLANK] + r[m + 1..];
        assert forall i :: 0 <= i < m ==> r[..m][i] == r[i];
        assert t == t[..n] + [BLANK] + r[..m] + [BLANK] + r[m + 1..];
      }
    }
  }

  lemma SplitOfJoin(verb: Text, topic: Text, rest: Text)
    requires BLANK !in verb && BLANK !in topic
    ensures SplitN3(verb + [BLANK] + topic + [BLANK] + rest) == Parts(verb, Some(topic), Some(rest))
  {
    var t := verb + [BLANK] + topic + [BLANK] + rest;
    UntilIs(t, {BLANK}, |verb|);
    assert t[|verb| + 1..] == topic + [BLANK] + rest;
    UntilIs(topic + [BLANK] + rest, {BLANK}, |topic|);
    assert t[..|verb|] == verb && (topic + [BLANK] + rest)[..|topic|] == topic;
    assert (topic + [BLANK] + rest)[|topic| + 1..] == rest;
  }

  /** The text "verb topic", alone or followed by a blank and anything. */
  predicate Says(t: Text, verb: Text, topic: Text) {
    && BLANK !in topic && verb + [BLANK] + topic <= t
    && (|t| == |verb| + 1 + |topic| || t[|verb| + 1 + |topic|] == BLANK)
  }

  lemma SplitIs(t: Text, verb: Text, topic: Text)
    requires BLANK !in verb
    ensures SplitN3(t).verb == verb && SplitN3(t).second == Some(topic) <==> Says(t, verb, topic)
  {
    hide Until;
    if Says(t, verb, topic) {
      var tail := t[|verb| + 1 + |topic|..];
      assert t == verb + [BLANK] + topic + tail;
      if tail == [] {
        assert t == verb + [BLANK] + topic;
        SplitOfPair(verb, topic);
      } else {
        assert tail == [BLANK] + tail[1..];
        assert t == verb + [BLANK] + topic + [BLANK] + tail[1..];
        SplitOfJoin(verb, topic, tail[1..]);
      }
    } else {
      SplitSays(t);
    }
  }

  lemma SplitSays(t: Text)
    ensures SplitN3(t).second.Some? ==> Says(t, SplitN3(t).verb, SplitN3(t).second.value)
  {
    hide Until;
    var n := Until(t, {BLANK});
    if n < |t| {
      var r := t[n + 1..];
      var m := Until(r, {BLANK});
      assert t == t[..n] + [BLANK] + r;
      assert r == r[..m] + r[m..];
      assert forall i :: 0 <= i < m ==> r[..m][i] == r[i];
      assert t == t[..n] + [BLANK] + r[..m] + r[m..];
      assert m < |r| ==> t[n + 1 + m] == r[m];
    }
  }

  /** Every text that is one of the three commands, and no other: surrounding
      whitespace aside, the word, one blank and the topic, whatever its length,
      and after a further blank anything. */
  lemma CommandIff(msg: Text, topic: Text)
    ensures Parse(msg) == Register(topic) <==> Says(Trim(msg), Protocol.REGISTER, topic)
    ensures Parse(msg) == Subscribe(topic) <==> Says(Trim(msg), Protocol.SUBSCRIBE, topic)
    ensures Parse(msg) == Flush(topic) <==> Says(Trim(msg), Protocol.FLUSH, topic)
  {
    hide Trim, SplitN3, Says;
    SplitIs(Trim(msg), Protocol.REGISTER, topic);
    SplitIs(Trim(msg), Protocol.SUBSCRIBE, topic);
    SplitIs(Trim(msg), Protocol.FLUSH, topic);
    WordsDiffer();
    hide Protocol.REGISTER, Protocol.SUBSCRIBE, Protocol.FLUSH, Protocol.PUBLISH;
  }

  lemma WordsDiffer()
    ensures Protocol.REGISTER != Protocol.SUBSCRIBE && Protocol.REGISTER != Protocol.FLUSH && Protocol.SUBSCRIBE != Protocol.FLUSH
    ensures Protocol.PUBLISH != Protocol.REGISTER && Protocol.PUBLISH != Protocol.SUBSCRIBE && Protocol.PUBLISH != Protocol.FLUSH
  {
    assert |Protocol.REGISTER| == 8 && |Protocol.SUBSCRIBE| == 9 && |Protocol.FLUSH| == 5 && |Protocol.PUBLISH| == 7;
  }

  lemma SplitOfPair(verb: Text, topic: Text)
    requires BLANK !in verb && BLANK !in topic
    ensures SplitN3(verb + [BLANK] + topic) == Parts(verb, Some(topic), None)
  {
    var t := verb + [BLANK] + topic;
    UntilIs(t, {BLANK}, |verb|);
    assert t[|verb| + 1..] == topic && t[..|verb|] == verb;
    UntilIs(topic, {BLANK}, |topic|);
  }

  // ------------------------------------------------- forwarding, as bytes

  /** The datagrams that are forwarded as they came: well-formed UTF-8, not
      padded with whitespace, and not longer than the buffer, unless what the
      cut destroys is a final U+FFFD, which the replacement restores. */
  predicate Unaltered(p: seq<Byte>) {
    && WellFormed(p) && Unpadded(Decode(p))
    && (|p| <= RECV_BUFFER || CutThroughReplacement(p, RECV_BUFFER))
  }

  /** Decoding, trimming and encoding give the datagram back exactly for those. */
  lemma TrimmedUnchangedIff(p: seq<Byte>)
    requires p != []
    ensures Encode(Trim(Decode(Received(p)))) == p <==> Unaltered(p)
    ensures Unaltered(p) ==> Trim(Decode(Received(p))) == Decode(Received(p)) == Decode(p)
  {
    hide Trim, CutThroughReplacement, WellFormed, Decode, Encode, Unpadded;
    var t, n := Decode(Received(p)), |Received(p)|;
    assert Received(p) == p[..n];
    TrimUntouched(t);
    if Encode(Trim(t)) == p {
      DecodeOfEncode(Trim(t));
      TrimUntouched(Decode(p));
      var _, _ := TrimSplits(t);
      NonEmptyEncoding(Trim(t));
      CutDecodesShorter(p, n);
      CutRestoredIff(p, n);
    }
    if Unaltered(p) {
      CutRestoredIff(p, n);
      DecodeOfEncode(t);
      TrimUntouched(Decode(p));
    }
  }

  lemma NonEmptyEncoding(t: Text)
    ensures Encode(t) != [] ==> t != []
  {
  }

  /** A PUBLISH is forwarded byte for byte exactly if it is unaltered. */
  lemma ForwardedUnchangedIff(p: seq<Byte>, topic: Text, rest: Text)
    requires Reads(p) == Publish(topic, rest)
    ensures Encode(Rebuilt(topic, rest)) == p <==> Unaltered(p)
  {
    hide Parse, Trim, Unaltered, Decode, Encode, Rebuilt;
    PublishIffRebuilt(Decode(Received(p)), topic, rest);
    if p == [] {
      NothingPublishes(topic, rest);
    } else {
      TrimmedUnchangedIff(p);
    }
  }

  lemma NothingPublishes(topic: Text, rest: Text)
    ensures Reads([]) != Publish(topic, rest)
  {
    PublishIffRebuilt([], topic, rest);
    assert Rebuilt(topic, rest)[0] == 80;
  }

  /** "PUBLISH topic rest", as bytes. */
  function PublishBytes(topic: seq<Byte>, rest: seq<Byte>): seq<Byte> {
    Protocol.PUBLISH + [SPACE] + topic + [SPACE] + rest
  }

  predicate AsciiWord(t: seq<Byte>) {
    forall i :: 0 <= i < |t| ==> 33 <= t[i] <= 126
  }

  /** The text of the part after the topic that fits the buffer. */
  function RestText(topic: seq<Byte>, rest: seq<Byte>): Text
    requires |topic| < KEY_SIZE
  {
    var room := RECV_BUFFER - |topic| - 9;
    Decode(if |rest| <= room then rest else rest[..room])
  }

  lemma PublishText(topic: seq<Byte>, rest: seq<Byte>)
    requires 0 < |topic| < KEY_SIZE && AsciiWord(topic)
    ensures Decode(Received(PublishBytes(topic, rest)))
            == Protocol.PUBLISH + [BLANK] + topic + [BLANK] + RestText(topic, rest)
  {
    hide Decode;
    var p := PublishBytes(topic, rest);
    var head: seq<Byte> := Protocol.PUBLISH + [SPACE] + topic + [SPACE];
    var room := RECV_BUFFER - |topic| - 9;
    var kept := if |rest| <= room then rest else rest[..room];
    assert p == head + rest;
    assert Received(p) == head + kept;
    AsciiFirst(head, kept);
  }

  /** A PUBLISH datagram is read as one exactly if anything but whitespace
      follows the topic; trailing whitespace is dropped. */
  lemma PublishReads(topic: seq<Byte>, rest: seq<Byte>)
    requires 0 < |topic| < KEY_SIZE && AsciiWord(topic)
    ensures var d := RestText(topic, rest);
            Reads(PublishBytes(topic, rest)) == if AllBlank(d) then Ignored else Publish(topic, TrimEnd(d))
  {
    hide Decode, Parse, RestText;
    PublishText(topic, rest);
    TrimmedPublish(topic, RestText(topic, rest));
  }

  /** One that is not is altered by trimming. */
  lemma BlankIsAltered(topic: seq<Byte>, rest: seq<Byte>)
    requires 0 < |topic| < KEY_SIZE && AsciiWord(topic) && AllBlank(RestText(topic, rest))
    ensures !Unaltered(PublishBytes(topic, rest))
  {
    hide Decode, Trim, RestText, Unaltered;
    var p, d := PublishBytes(topic, rest), RestText(topic, rest);
    var t := Decode(Received(p));
    PublishText(topic, rest);
    TrimmedUnchangedIff(p);
    TrimUntouched(t);
    assert |d| > 0 ==> d[|d| - 1] in d;
    assert IsWhitespace(t[|t| - 1]);
  }

  lemma TrimmedPublish(topic: Text, d: Text)
    requires topic != [] && forall i :: 0 <= i < |topic| ==> 33 <= topic[i] <= 126
    ensures Parse(Protocol.PUBLISH + [BLANK] + topic + [BLANK] + d) == if AllBlank(d) then Ignored else Publish(topic, TrimEnd(d))
  {
    hide Parse, AllBlank, TrimEnd;
    if AllBlank(d) {
      PublishWithoutRest(topic, d);
    } else {
      PublishWithRest(topic, d);
    }
  }

  lemma PublishWithoutRest(topic: Text, d: Text)
    requires topic != [] && AllBlank(d) && forall i :: 0 <= i < |topic| ==> 33 <= topic[i] <= 126
    ensures Parse(Protocol.PUBLISH + [BLANK] + topic + [BLANK] + d) == Ignored
  {
    hide Trim, SplitN3;
    var verb: Text := Protocol.PUBLISH;
    var core, text := verb + [BLANK] + topic, verb + [BLANK] + topic + [BLANK] + d;
    assert core[0] == 80 && core[|core| - 1] == topic[|topic| - 1];
    assert text == [] + core + ([BLANK] + d);
    TrimIs([], core, [BLANK] + d);
    SplitOfPair(verb, topic);
  }

  lemma PublishWithRest(topic: Text, d: Text)
    requires topic != [] && !AllBlank(d) && forall i :: 0 <= i < |topic| ==> 33 <= topic[i] <= 126
    ensures Parse(Protocol.PUBLISH + [BLANK] + topic + [BLANK] + d) == Publish(topic, TrimEnd(d))
  {
    hide Parse, Trim, TrimEnd, AllBlank;
    var text, r := Protocol.PUBLISH + [BLANK] + topic + [BLANK] + d, TrimEnd(d);
    TrimEndSplits(d);
    assert d == r + d[|r|..];
    assert text == [] + Rebuilt(topic, r) + d[|r|..];
    assert Rebuilt(topic, r)[0] == 80 && Rebuilt(topic, r)[|Rebuilt(topic, r)| - 1] == r[|r| - 1];
    assert AllBlank([]) by {
      NothingIsBlank();
    }
    TrimIs([], Rebuilt(topic, r), d[|r|..]);
    PublishIffRebuilt(text, topic, r);
  }

  lemma NothingIsBlank()
    ensures AllBlank([])
  {
  }

  /** Two datagrams the broker does not pass on as they came: a final U+3000 is
      whitespace to `trim`, and a byte that is not UTF-8 grows into three. */
  lemma PaddingIsCut()
    ensures Reads(PublishBytes([116], [120, 0xE3, 0x80, 0x80])) == Publish([116], [120])
    ensures Encode(Rebuilt([116], [120])) == PublishBytes([116], [120])
  {
    hide Trim, SplitN3, Reads, PublishBytes, Rebuilt;
    PublishReads([116], [120, 0xE3, 0x80, 0x80]);
    DecodePadding();
    assert [120, 0x3000][..1] == [120];
    assert RestText([116], [120, 0xE3, 0x80, 0x80]) == [120, 0x3000];
    assert TrimEnd([120, 0x3000]) == TrimEnd([120]) == [120];
    assert 120 in RestText([116], [120, 0xE3, 0x80, 0x80]);
    RebuiltIs([116], [120]);
    assert Encode([120]) == [120] by {
      assert [120][1..] == [];
    }
  }

  lemma DecodePadding()
    ensures Decode([120, 0xE3, 0x80, 0x80]) == [120, 0x3000]
  {
    var b: seq<Byte> := [0xE3, 0x80, 0x80];
    assert LeadOf(b) == Good(0x3000, 3) && b[3..] == [];
    assert [120, 0xE3, 0x80, 0x80][1..] == b;
  }

  lemma IllFormedBytesGrow()
    ensures Reads(PublishBytes([116], [0xFF])) == Publish([116], [REPLACEMENT])
    ensures Encode(Rebuilt([116], [REPLACEMENT])) == PublishBytes([116], REPLACEMENT_BYTES)
  {
    hide Trim, SplitN3, Reads, PublishBytes, Rebuilt;
    PublishReads([116], [0xFF]);
    assert [0xFF][1..] == [];
    assert RestText([116], [0xFF]) == [REPLACEMENT];
    assert REPLACEMENT in RestText([116], [0xFF]);
    RebuiltIs([116], [REPLACEMENT]);
    ReplacementEncodes();
  }

  /** The bytes of a rebuilt message with an ASCII topic. */
  lemma RebuiltIs(topic: seq<Byte>, rest: Text)
    requires AsciiWord(topic)
    ensures Encode(Rebuilt(topic, rest)) == PublishBytes(topic, Encode(rest))
  {
    hide Encode;
    var head: seq<Byte> := Protocol.PUBLISH + [SPACE] + topic + [SPACE];
    AsciiEncodes(head, rest);
    assert Rebuilt(topic, rest) == head + rest;
  }

  // -------------------------------------------------------- conservation

  datatype Datagram = Datagram(bytes: seq<Byte>, sender: Addr)

  function Serve(s: State, d: Datagram): State {
    Apply(s, Decode(Received(d.bytes)), d.sender)
  }

  function Run(ds: seq<Datagram>): State {
    if ds == [] then EMPTY else Serve(Run(ds[..|ds| - 1]), ds[|ds| - 1])
  }

  function ReachedBy(s: State, d: Datagram): nat {
    match Reads(d.bytes)
    case Publish(t, _) => if t in s.topics then |s.topics[t]| else 0
    case _ => 0
  }

  /** Subscribers reached, publish by publish, at the moment of each. */
  function Reached(ds: seq<Datagram>): nat {
    if ds == [] then 0
    else Reached(ds[..|ds| - 1]) + ReachedBy(Run(ds[..|ds| - 1]), ds[|ds| - 1])
  }

  ghost predicate Counts(s: State, reached: nat) {
    && |s.sent| == reached
    && s.cloned == reached % 0x1_0000_0000_0000_0000
    && forall m :: m in s.sent ==> Protocol.PUBLISH + [SPACE] <= m.bytes
  }

  /** Over any run, the messages forwarded are one per subscriber of the topic
      at each accepted publish, the clone counter counts exactly them, and
      nothing but rebuilt publishes is ever forwarded. */
  lemma {:induction false} ForwardsAreCounted(ds: seq<Datagram>)
    ensures Counts(Run(ds), Reached(ds))
  {
    hide Serve, Counts, ReachedBy;
    if ds == [] {
      EmptyCounts();
    } else {
      var before, d := ds[..|ds| - 1], ds[|ds| - 1];
      ForwardsAreCounted(before);
      StepIsCounted(Run(before), d, Reached(before));
    }
  }

  lemma EmptyCounts()
    ensures Counts(EMPTY, 0)
  {
  }

  lemma StepIsCounted(s: State, d: Datagram, n: nat)
    requires Counts(s, n)
    ensures Counts(Serve(s, d), n + ReachedBy(s, d))
  {
    hide Parse, Forwards, Decode, Encode;
    match Reads(d.bytes)
    case Publish(topic, rest) =>
      PublishIsCounted(s, Forwards(s.topics, topic, Encode(Rebuilt(topic, rest))), n, topic, rest);
      hide Counts, Rebuilt, Add64;
    case _ =>
  }

  lemma PublishIsCounted(s: State, out: set<Message>, n: nat, topic: Text, rest: Text)
    requires Counts(s, n) && out == Forwards(s.topics, topic, Encode(Rebuilt(topic, rest)))
    ensures |out| == if topic in s.topics then |s.topics[topic]| else 0
    ensures Counts(s.(published := Add64(s.published, 1), cloned := Add64(s.cloned, |out|), sent := s.sent + multiset(out)), n + |out|)
  {
    hide Add64, Encode;
    var bytes := Encode(Rebuilt(topic, rest));
    RebuiltBytes(topic, rest);
    if topic in s.topics {
      OutSize(s.topics[topic], bytes);
    }
    assert forall m :: m in out ==> m.bytes == bytes;
    Add64Wraps(n, |out|);
    hide Forwards, Rebuilt, OutOf;
    assert |s.sent + multiset(out)| == n + |out|;
  }

  lemma RebuiltBytes(topic: Text, rest: Text)
    ensures Protocol.PUBLISH + [SPACE] <= Encode(Rebuilt(topic, rest))
  {
    var verb: Text := Protocol.PUBLISH + [BLANK];
    assert Rebuilt(topic, rest) == verb + (topic + [BLANK] + rest);
    AsciiEncodes(Protocol.PUBLISH + [SPACE], topic + [BLANK] + rest);
  }

  lemma {:induction false} AsciiEncodes(a: seq<Byte>, t: Text)
    requires forall i :: 0 <= i < |a| ==> a[i] < 0x80
    ensures Encode(a + t) == a + Encode(t)
  {
    if a == [] {
      assert a + t == t;
    } else {
      assert (a + t)[1..] == a[1..] + t;
      AsciiEncodes(a[1..], t);
    }
  }

  lemma Add64Wraps(n: nat, m: nat)
    ensures Add64(n % 0x1_0000_0000_0000_0000, m) == (n + m) % 0x1_0000_0000_0000_0000
  {
  }

  // ------------------------------------------ what a run of datagrams leaves

  /** The text a datagram is read as. */
  function TextOf(d: Datagram): Text {
    Trim(Decode(Received(d.bytes)))
  }

  predicate Asks(d: Datagram, verb: Text, topic: Text) {
    Says(TextOf(d), verb, topic)
  }

  /** The topics after any run of any datagrams: those some datagram registered or
      subscribed to, each with the senders that subscribed since it was last
      flushed. */
  lemma {:induction false} TopicsAre(ds: seq<Datagram>, t: Text)
    ensures t in Run(ds).topics <==>
              exists i :: 0 <= i < |ds| && (Asks(ds[i], Protocol.REGISTER, t) || Asks(ds[i], Protocol.SUBSCRIBE, t))
    ensures t in Run(ds).topics ==> forall a :: a in Run(ds).topics[t] <==> Subscribed(ds, t, a)
    ensures t !in Run(ds).topics ==> forall a :: !Subscribed(ds, t, a)
  {
    hide Asks, Protocol.REGISTER, Protocol.SUBSCRIBE, Protocol.FLUSH, Serve;
    if ds != [] {
      var n := |ds| - 1;
      var before, d := ds[..n], ds[n];
      assert ds == before + [d];
      TopicsAre(before, t);
      TopicStep(Run(before), d, t);
      AsksOneThing(d, t);
      forall a ensures Subscribed(ds, t, a) <==>
                         (Asks(d, Protocol.SUBSCRIBE, t) && d.sender == a) || (Subscribed(before, t, a) && !Asks(d, Protocol.FLUSH, t)) {
        SubscribedStep(before, d, t, a);
      }
    }
  }

  /** `a` subscribed to `t` after its last flush. */
  predicate Subscribed(ds: seq<Datagram>, t: Text, a: Addr) {
    exists i :: 0 <= i < |ds| && Asks(ds[i], Protocol.SUBSCRIBE, t) && ds[i].sender == a && NotFlushedAfter(ds, t, i)
  }

  predicate NotFlushedAfter(ds: seq<Datagram>, t: Text, i: nat) {
    forall j :: i < j < |ds| ==> !Asks(ds[j], Protocol.FLUSH, t)
  }

  lemma SubscribedStep(before: seq<Datagram>, d: Datagram, t: Text, a: Addr)
    ensures Subscribed(before + [d], t, a) <==>
              (Asks(d, Protocol.SUBSCRIBE, t) && d.sender == a) || (Subscribed(before, t, a) && !Asks(d, Protocol.FLUSH, t))
  {
    hide Asks, Protocol.SUBSCRIBE, Protocol.FLUSH;
    var ds, n := before + [d], |before|;
    assert ds[n] == d && forall i :: 0 <= i < n ==> ds[i] == before[i];
    if Subscribed(ds, t, a) {
      var i :| 0 <= i < |ds| && Asks(ds[i], Protocol.SUBSCRIBE, t) && ds[i].sender == a && NotFlushedAfter(ds, t, i);
      if i < n {
        assert NotFlushedAfter(before, t, i);
      }
    }
    if Asks(d, Protocol.SUBSCRIBE, t) && d.sender == a {
      assert NotFlushedAfter(ds, t, n);
    }
    if Subscribed(before, t, a) && !Asks(d, Protocol.FLUSH, t) {
      var i :| 0 <= i < n && Asks(before[i], Protocol.SUBSCRIBE, t) && before[i].sender == a && NotFlushedAfter(before, t, i);
      assert NotFlushedAfter(ds, t, i);
    }
  }

  lemma AsksOneThing(d: Datagram, t: Text)
    ensures !(Asks(d, Protocol.SUBSCRIBE, t) && Asks(d, Protocol.FLUSH, t))
    ensures !(Asks(d, Protocol.SUBSCRIBE, t) && Asks(d, Protocol.REGISTER, t))
    ensures !(Asks(d, Protocol.REGISTER, t) && Asks(d, Protocol.FLUSH, t))
  {
    hide Parse, Says;
    CommandIff(Decode(Received(d.bytes)), t);
  }

  lemma TopicStep(s: State, d: Datagram, t: Text)
    ensures var topics := Serve(s, d).topics;
            && (t in topics <==> t in s.topics || Asks(d, Protocol.REGISTER, t) || Asks(d, Protocol.SUBSCRIBE, t))
            && (t in topics ==> topics[t] == if Asks(d, Protocol.FLUSH, t) then {} else
                  (if t in s.topics then s.topics[t] else {}) + (if Asks(d, Protocol.SUBSCRIBE, t) then {d.sender} else {}))
  {
    hide Parse, Says, Trim, Decode, Encode, Forwards, Rebuilt;
    CommandIff(Decode(Received(d.bytes)), t);
  }

  /** A PUBLISH, of whatever topic, goes to each subscriber of that topic once and
      to nobody else, as the bytes of the rebuilt message, and is counted. */
  lemma PublishForwards(s: State, d: Datagram, topic: Text, rest: Text)
    requires BLANK !in topic && TextOf(d) == Rebuilt(topic, rest)
    ensures Serve(s, d).topics == s.topics && Serve(s, d).replies == s.replies
    ensures Serve(s, d).published == (s.published + 1) % 0x1_0000_0000_0000_0000
    ensures Serve(s, d).sent == s.sent +
              multiset(set a | topic in s.topics && a in s.topics[topic] :: Message(a, Encode(Rebuilt(topic, rest))))
  {
    hide Parse, Trim, Decode, Encode, Rebuilt;
    PublishIffRebuilt(Decode(Received(d.bytes)), topic, rest);
    var bytes := Encode(Rebuilt(topic, rest));
    assert Forwards(s.topics, topic, bytes) == set a | topic in s.topics && a in s.topics[topic] :: Message(a, bytes);
  }

  function FirstWord(t: Text): Text {
    t[..Until(t, {BLANK})]
  }

  /** The reply a datagram is due: decided by the first word of its text, if
      anything follows it. */
  function Due(d: Datagram): seq<Message> {
    var t := TextOf(d);
    if BLANK !in t then []
    else if FirstWord(t) == Protocol.REGISTER then [Message(d.sender, Protocol.REGACK)]
    else if FirstWord(t) == Protocol.SUBSCRIBE then [Message(d.sender, Protocol.SUBACK)]
    else if FirstWord(t) == Protocol.FLUSH then [Message(d.sender, Protocol.FLUSHED)]
    else []
  }

  function AllDue(ds: seq<Datagram>): seq<Message> {
    if ds == [] then [] else AllDue(ds[..|ds| - 1]) + Due(ds[|ds| - 1])
  }

  ghost predicate IsPublish(d: Datagram) {
    exists topic, rest :: BLANK !in topic && TextOf(d) == Rebuilt(topic, rest)
  }

  ghost function PublishCount(ds: seq<Datagram>): nat {
    if ds == [] then 0 else PublishCount(ds[..|ds| - 1]) + (if IsPublish(ds[|ds| - 1]) then 1 else 0)
  }

  lemma FirstWordIs(t: Text)
    ensures SplitN3(t).verb == FirstWord(t) && (SplitN3(t).second.Some? <==> BLANK in t)
  {
    var n := Until(t, {BLANK});
    assert n == |t| ==> t[..n] == t;
    if n < |t| {
      assert t[n] in t;
    }
  }

  lemma StepReplies(s: State, d: Datagram)
    ensures Serve(s, d).replies == s.replies + Due(d)
  {
    hide Trim, SplitN3, Decode, FirstWord, Encode, Forwards, Rebuilt;
    WordsDiffer();
    FirstWordIs(TextOf(d));
    hide Protocol.REGISTER, Protocol.SUBSCRIBE, Protocol.FLUSH, Protocol.PUBLISH;
  }

  lemma StepPublished(s: State, d: Datagram)
    ensures Serve(s, d).published == (s.published + if IsPublish(d) then 1 else 0) % 0x1_0000_0000_0000_0000
  {
    hide Parse, Trim, Decode, Encode, Forwards, Rebuilt;
    match Reads(d.bytes)
    case Publish(topic, rest) =>
      PublishIffRebuilt(Decode(Received(d.bytes)), topic, rest);
    case _ =>
      if IsPublish(d) {
        var topic, rest :| BLANK !in topic && TextOf(d) == Rebuilt(topic, rest);
        PublishIffRebuilt(Decode(Received(d.bytes)), topic, rest);
      }
  }

  /** Over any run the replies are the ones due, in order, each to its sender, and
      the publish counter counts the datagrams that are a PUBLISH. */
  lemma {:induction false} RepliesAreDue(ds: seq<Datagram>)
    ensures Run(ds).replies == AllDue(ds)
    ensures Run(ds).published == PublishCount(ds) % 0x1_0000_0000_0000_0000
  {
    hide Serve, Due, IsPublish;
    if ds != [] {
      var before, d := ds[..|ds| - 1], ds[|ds| - 1];
      RepliesAreDue(before);
      StepReplies(Run(before), d);
      StepPublished(Run(before), d);
    }
  }
}
