/** Whole runs: commands and publications in any order, served by all three
    brokers side by side. */
module MixedRuns {
  import opened Words
  import opened Frame
  import opened Utf8
  import opened TopicKey
  import opened DaemonMain
  import opened Equivalence
  import opened Delivery

  datatype Event =
    | Control(cmd: Cmd, sender: Addr, lineEnd: seq<Byte>)
    | Publish(frame: seq<Byte>, topic: Text, rest: seq<Byte>, sender: Addr)

  /** The commands of a run, which alone decide who is subscribed. */
  function Commands(es: seq<Event>): seq<Cmd> {
    if es == [] then []
    else
      var before, e := Commands(es[..|es| - 1]), es[|es| - 1];
      if e.Control? then before + [e.cmd] else before
  }

  /** Legal commands, and publications of frames to valid topics whose 32-bit
      counter has not wrapped. */
  predicate EventOk(cs: seq<Cmd>, e: Event) {
    match e
    case Control(c, _, lineEnd) => LineEnd(lineEnd) && LegalStep(Topics(cs), c)
    case Publish(f, t, rest, _) => PublishFrame(f, t, rest) && |Since(cs, t)| < 0x1_0000_0000
  }

  predicate LegalRun(es: seq<Event>) {
    es == [] || (LegalRun(es[..|es| - 1]) && EventOk(Commands(es[..|es| - 1]), es[|es| - 1]))
  }

  lemma {:induction false} CommandsLegal(es: seq<Event>)
    requires LegalRun(es)
    ensures Legal(Commands(es))
  {
    hide Topics, LegalStep;
    if es != [] {
      var before, e := es[..|es| - 1], es[|es| - 1];
      CommandsLegal(before);
      if e.Control? {
        assert (Commands(before) + [e.cmd])[..|Commands(before)|] == Commands(before);
      }
    }
  }

  // ------------------------------------------------- the reference broker

  function SenderOf(e: Event): Addr {
    if e.Control? && e.cmd.Subscribe? then e.cmd.from else e.sender
  }

  function ReferenceStep(s: R.State, e: Event): R.State {
    match e
    case Control(c, _, lineEnd) =>
      if ValidTopic(c.topic) then R.Serve(s, R.Datagram(TextOf(c) + lineEnd, SenderOf(e))) else s
    case Publish(f, _, _, sender) => Hear(s, f, sender)
  }

  function ReferenceRun(es: seq<Event>): R.State {
    if es == [] then R.EMPTY else ReferenceStep(ReferenceRun(es[..|es| - 1]), es[|es| - 1])
  }

  /** Messages an event makes the reference broker forward, and the subscribers
      it has to be forwarded to. */
  function HeardBy(cs: seq<Cmd>, e: Event): set<R.Message> {
    if e.Publish? then Heard(Topics(cs), e.frame) else {}
  }

  function Audience(cs: seq<Cmd>, e: Event): set<Addr> {
    if e.Publish? then Subscribers(cs, e.topic) else {}
  }

  function HeardTotal(es: seq<Event>): nat {
    if es == [] then 0
    else HeardTotal(es[..|es| - 1]) + |HeardBy(Commands(es[..|es| - 1]), es[|es| - 1])|
  }

  function Total(es: seq<Event>): nat {
    if es == [] then 0
    else Total(es[..|es| - 1]) + |Audience(Commands(es[..|es| - 1]), es[|es| - 1])|
  }

  /** Its replies, one per command, and the publications it counts. */
  function ReplyTo(c: Cmd, sender: Addr): R.Message {
    match c
    case Register(_) => R.Message(sender, Protocol.REGACK)
    case Subscribe(_, _) => R.Message(sender, Protocol.SUBACK)
    case Flush(_) => R.Message(sender, Protocol.FLUSHED)
  }

  function Replies(es: seq<Event>): seq<R.Message> {
    if es == [] then []
    else
      var before, e := Replies(es[..|es| - 1]), es[|es| - 1];
      if e.Control? then before + [ReplyTo(e.cmd, SenderOf(e))] else before
  }

  function Published(es: seq<Event>): nat {
    if es == [] then 0
    else
      var e := es[|es| - 1];
      Published(es[..|es| - 1]) + if e.Publish? && Listening(e.frame, e.topic, e.rest) then 1 else 0
  }

  lemma ControlStep(s: R.State, e: Event)
    requires e.Control? && ValidTopic(e.cmd.topic) && LineEnd(e.lineEnd)
    ensures ReferenceStep(s, e).topics == Next(s.topics, e.cmd)
    ensures ReferenceStep(s, e).replies == s.replies + [ReplyTo(e.cmd, SenderOf(e))]
    ensures ReferenceStep(s, e).sent == s.sent && ReferenceStep(s, e).cloned == s.cloned && ReferenceStep(s, e).published == s.published
  {
    hide R.Parse, Decode, TextOf;
    DispatchersAgree(e.cmd, SenderOf(e), e.lineEnd);
  }

  /** What the reference broker holds, has sent and has counted after any run:
      its topics and replies are decided by the commands, and its counters are
      the number of publications with text after the topic and of messages
      forwarded, publication by publication. */
  lemma {:induction false} ReferenceAfter(es: seq<Event>)
    requires LegalRun(es)
    ensures ReferenceRun(es).topics == Topics(Commands(es)) && ReferenceRun(es).replies == Replies(es)
    ensures ReferenceRun(es).published == Published(es) % 0x1_0000_0000_0000_0000
    ensures |ReferenceRun(es).sent| == HeardTotal(es)
    ensures ReferenceRun(es).cloned == HeardTotal(es) % 0x1_0000_0000_0000_0000
  {
    hide ReferenceStep, Next, Heard, PublishFrame, LineEnd, R.Add64, Listening, ReplyTo, SenderOf;
    if es != [] {
      var before, e := es[..|es| - 1], es[|es| - 1];
      ReferenceAfter(before);
      var s := ReferenceRun(before);
      if e.Control? {
        ControlStep(s, e);
        assert (Commands(before) + [e.cmd])[..|Commands(before)|] == Commands(before);
      } else {
        PublishStep(s, e);
        R.Add64Wraps(HeardTotal(before), |Heard(s.topics, e.frame)|);
        R.Add64Wraps(Published(before), if Listening(e.frame, e.topic, e.rest) then 1 else 0);
      }
    }
  }

  lemma PublishStep(s: R.State, e: Event)
    requires e.Publish? && PublishFrame(e.frame, e.topic, e.rest)
    ensures ReferenceStep(s, e).topics == s.topics && ReferenceStep(s, e).replies == s.replies
    ensures ReferenceStep(s, e).published == R.Add64(s.published, if Listening(e.frame, e.topic, e.rest) then 1 else 0)
    ensures |ReferenceStep(s, e).sent| == |s.sent| + |Heard(s.topics, e.frame)|
    ensures ReferenceStep(s, e).cloned == R.Add64(s.cloned, |Heard(s.topics, e.frame)|)
  {
    hide Hear, Heard, PublishFrame, Listening;
    HearSends(s, e.frame, e.topic, e.rest, e.sender);
  }

  /** A publication the reference broker takes part in. */
  predicate TakesPart(cs: seq<Cmd>, e: Event)
    requires EventOk(cs, e)
  {
    e.Control? || Subscribers(cs, e.topic) == {} || Listening(e.frame, e.topic, e.rest)
  }

  ghost predicate AllTakePart(es: seq<Event>)
    requires LegalRun(es)
  {
    es == [] || (AllTakePart(es[..|es| - 1]) && TakesPart(Commands(es[..|es| - 1]), es[|es| - 1]))
  }

  /** Conservation across brokers: the reference broker never forwards more than
      the others have to, and exactly as much if and only if every publication
      with an audience reaches it with some text after the topic. */
  lemma {:induction false} TotalsAgreeIff(es: seq<Event>)
    requires LegalRun(es)
    ensures HeardTotal(es) <= Total(es)
    ensures HeardTotal(es) == Total(es) <==> AllTakePart(es)
  {
    hide EventOk, TakesPart, HeardBy, Audience;
    if es != [] {
      var before, e := es[..|es| - 1], es[|es| - 1];
      TotalsAgreeIff(before);
      EventAgreesIff(Commands(before), e);
    }
  }

  lemma EventAgreesIff(cs: seq<Cmd>, e: Event)
    requires EventOk(cs, e)
    ensures |HeardBy(cs, e)| <= |Audience(cs, e)|
    ensures |HeardBy(cs, e)| == |Audience(cs, e)| <==> TakesPart(cs, e)
  {
    hide Heard, PublishFrame, Listening, R.OutOf;
    if e.Publish? {
      var who := Subscribers(cs, e.topic);
      HeardIff(Topics(cs), e.frame, e.topic, e.rest);
      if Listening(e.frame, e.topic, e.rest) {
        var bytes :| Heard(Topics(cs), e.frame) == R.OutOf(who, bytes);
        R.OutSize(who, bytes);
      }
    }
  }

  // ------------------------------------------------------- all three brokers

  function Concat(parts: seq<seq<seq<Byte>>>): seq<seq<Byte>> {
    if parts == [] then [] else Concat(parts[..|parts| - 1]) + parts[|parts| - 1]
  }

  lemma ConcatSnoc(parts: seq<seq<seq<Byte>>>, last: seq<seq<Byte>>)
    ensures Concat(parts + [last]) == Concat(parts) + last
  {
    assert (parts + [last])[..|parts|] == parts;
  }

  /** What event `e`, after the commands `cs`, puts on the two wires. */
  ghost predicate EventServed(cs: seq<Cmd>, e: Event, sent: seq<seq<Byte>>, clones: seq<seq<Byte>>) {
    match e
    case Control(_, _, _) => sent == [] && clones == []
    case Publish(f, t, _, _) => Served(cs, f, t, sent, clones)
  }

  ghost predicate AllServed(es: seq<Event>, sent: seq<seq<seq<Byte>>>, clones: seq<seq<seq<Byte>>>) {
    |sent| == |clones| == |es| &&
    forall i :: 0 <= i < |es| ==> EventServed(Commands(es[..i]), es[i], sent[i], clones[i])
  }

  lemma AllServedSnoc(es: seq<Event>, n: nat, sent: seq<seq<seq<Byte>>>, clones: seq<seq<seq<Byte>>>,
                      s: seq<seq<Byte>>, c: seq<seq<Byte>>)
    requires n < |es| && AllServed(es[..n], sent, clones) && EventServed(Commands(es[..n]), es[n], s, c)
    ensures AllServed(es[..n + 1], sent + [s], clones + [c])
  {
    hide EventServed, Commands;
    forall i | 0 <= i <= n ensures EventServed(Commands(es[..n + 1][..i]), es[..n + 1][i], (sent + [s])[i], (clones + [c])[i]) {
      assert es[..n + 1][..i] == es[..i];
      if i < n {
        assert es[..n][..i] == es[..i];
        assert EventServed(Commands(es[..n][..i]), es[..n][i], sent[i], clones[i]);
      }
    }
  }

  lemma {:induction false} LegalPrefix(es: seq<Event>, n: nat)
    requires LegalRun(es) && n <= |es|
    ensures LegalRun(es[..n])
    ensures n < |es| ==> EventOk(Commands(es[..n]), es[n])
  {
    hide EventOk, Commands;
    if n == |es| {
      assert es[..n] == es;
    } else {
      var m := |es| - 1;
      LegalPrefix(es[..m], n);
      assert es[..m][..n] == es[..n];
    }
  }

  lemma RunsOn(cs: seq<Cmd>, c: Cmd)
    ensures D.Run(Ops(cs + [c])) == D.Apply(D.Run(Ops(cs)), OpOf(c))
    ensures C.Run(Ops(cs + [c])) == C.Apply(C.Run(Ops(cs)), OpOf(c))
  {
    hide D.Apply, C.Apply, OpOf;
    assert Ops(cs + [c])[..|cs|] == Ops(cs);
  }

  lemma LegalMore(cs: seq<Cmd>, c: Cmd)
    requires Legal(cs) && LegalStep(Topics(cs), c)
    ensures Legal(cs + [c])
  {
    assert (cs + [c])[..|cs|] == cs;
  }

  /** What a daemon answers a legal command. */
  function Answer(c: Cmd): Ack {
    match c
    case Register(t) => RegAck(KeyFor(t))
    case Subscribe(t, _) => SubAck(Some(KeyFor(t)))
    case Flush(_) => Flushed
  }

  /** The word an acknowledgement begins with. */
  function Word(a: Ack): seq<Byte> {
    match a
    case Silent => []
    case RegAck(_) => Protocol.REGACK
    case SubAck(_) => Protocol.SUBACK
    case Flushed => Protocol.FLUSHED
  }

  function Answers(es: seq<Event>): seq<Ack> {
    if es == [] then []
    else
      var before, e := Answers(es[..|es| - 1]), es[|es| - 1];
      if e.Control? then before + [Answer(e.cmd)] else before
  }

  /** A legal command is acknowledged by both daemons, its topic registered by
      then, and never refused. */
  lemma Acknowledged(cs: seq<Cmd>, c: Cmd, tail: seq<Byte>)
    requires Legal(cs + [c]) && ValidTopic(c.topic) && LineEnd(tail)
    ensures var text, ops := TextOf(c) + tail, Ops(cs + [c]);
            Reply(text, D.Run(ops).subs.Keys) == Answer(c) && Reply(text, C.Run(ops).arrays.Keys) == Answer(c)
  {
    hide Reply, D.Run, C.Run, Ops, Legal, KeyFor, TextOf, Answer;
    RegisteredByThen(cs, c);
    ReplyIs(c, tail, D.Run(Ops(cs + [c])).subs.Keys);
    ReplyIs(c, tail, C.Run(Ops(cs + [c])).arrays.Keys);
  }

  lemma ReplyIs(c: Cmd, tail: seq<Byte>, registered: set<Key>)
    requires ValidTopic(c.topic) && LineEnd(tail) && (c.Register? ==> KeyFor(c.topic) in registered)
    ensures Reply(TextOf(c) + tail, registered) == Answer(c)
  {
    hide Reply, Dispatch, TextOf, Pad, Pack;
    var t: seq<Byte> := c.topic;
    TextIs(c);
    CommandIs(t, tail, Addr(0, 0), registered);
    hide REGISTER, SUBSCRIBE, FLUSH;
  }

  lemma TextIs(c: Cmd)
    requires ValidTopic(c.topic)
    ensures TextOf(c) == (match c case Register(_) => REGISTER case Subscribe(_, _) => SUBSCRIBE case Flush(_) => FLUSH) + c.topic
  {
  }

  lemma RegisteredByThen(cs: seq<Cmd>, c: Cmd)
    requires Legal(cs + [c]) && ValidTopic(c.topic)
    ensures c.Register? ==> KeyFor(c.topic) in D.Run(Ops(cs + [c])).subs && KeyFor(c.topic) in C.Run(Ops(cs + [c])).arrays
  {
    hide D.Run, C.Run, Ops, Legal, KeyFor, C.Since;
    var all := cs + [c];
    assert all[..|cs|] == cs;
    SetsAgree(all);
    ArraysAgree(all, c.topic);
  }

  /** Command by command the daemons answer with the word of the reference
      broker's reply. */
  lemma {:induction false} AnswersMatch(es: seq<Event>)
    ensures |Answers(es)| == |Replies(es)| == |Commands(es)|
    ensures forall i :: 0 <= i < |Answers(es)| ==> Word(Answers(es)[i]) == Replies(es)[i].bytes
  {
    if es != [] {
      AnswersMatch(es[..|es| - 1]);
    }
  }

  /** One event at all three brokers. */
  method ServeEvent(process: D.DaemonProcess, kernel: K.KernelPrograms, clone: C.CloneKernel, reference: R.Broker,
                    e: Event, ghost cs: seq<Cmd>)
    returns (acks: seq<Ack>, acksXdp: seq<Ack>, ghost sent: seq<seq<Byte>>, ghost clones: seq<seq<Byte>>)
    requires process.maps == kernel.maps && Legal(cs) && EventOk(cs, e)
    requires process.Contents() == D.Run(Ops(cs)) && clone.maps.Contents() == C.Run(Ops(cs))
    requires kernel.cloneCounter == K.AddMany(0, |kernel.wire|)
    modifies process.maps, clone.maps, kernel, clone, reference
    ensures reference.Contents() == ReferenceStep(old(reference.Contents()), e)
    ensures acks == acksXdp == if e.Control? then [Answer(e.cmd)] else []
    ensures var cs' := if e.Control? then cs + [e.cmd] else cs;
            process.Contents() == D.Run(Ops(cs')) && clone.maps.Contents() == C.Run(Ops(cs'))
    ensures kernel.wire == old(kernel.wire) + sent && clone.wire == old(clone.wire) + clones
    ensures EventServed(cs, e, sent, clones)
    ensures kernel.cloneCounter == K.AddMany(0, |kernel.wire|)
  {
    hide D.Apply, C.Apply, D.Run, C.Run, R.Apply, Ops, Decode, Topics, Since, Legal, Dispatch, Reply, OpOf, TextOf;
    hide Inbox, Received, R.Received, PublishFrame, Served, LineEnd, K.AddMany;
    match e {
      case Control(c, sender, lineEnd) =>
        DispatchersAgree(c, SenderOf(e), lineEnd);
        var text := TextOf(c) + lineEnd;
        LegalMore(cs, c);
        Acknowledged(cs, c, lineEnd);
        RunsOn(cs, c);
        var ack := HandleDatagram(process, text, SenderOf(e), true);
        var ackXdp := HandleDatagramXdp(clone.maps, text, SenderOf(e), true);
        reference.OnDatagram(text, SenderOf(e));
        acks, acksXdp, sent, clones := [ack], [ackXdp], [], [];
      case Publish(f, t, rest, sender) =>
        var inbox := Inbox(f);
        if inbox.Some? {
          reference.OnDatagram(inbox.value, sender);
        }
        acks, acksXdp := [], [];
        sent, clones := PublishToAll(kernel, clone, f, cs, t, rest);
    }
  }

  /** The theorem over whole runs.  Started empty and fed one stream of events,
      the reference broker ends in the state `ReferenceRun` describes; every
      PUBLISH on the way reaches, in the XDP+TC broker, exactly the subscribers
      the reference broker has at that moment, once each, and likewise in the
      clone broker exactly if nobody subscribed twice since the last flush; the
      clone counter is the sum of those sets' sizes modulo 2^32; and all three
      acknowledge every command, in order, with the same word. */
  method ServeAll(process: D.DaemonProcess, kernel: K.KernelPrograms, clone: C.CloneKernel, reference: R.Broker,
                  es: seq<Event>)
    returns (acks: seq<Ack>, acksXdp: seq<Ack>, ghost sent: seq<seq<seq<Byte>>>, ghost clones: seq<seq<seq<Byte>>>)
    requires process.maps == kernel.maps && LegalRun(es)
    requires process.Contents() == D.EMPTY && clone.maps.Contents() == C.EMPTY && reference.Contents() == R.EMPTY
    requires kernel.wire == [] && kernel.cloneCounter == 0 && clone.wire == []
    modifies process.maps, clone.maps, kernel, clone, reference
    ensures reference.Contents() == ReferenceRun(es)
    ensures reference.topics == Topics(Commands(es)) && reference.replies == Replies(es)
    ensures acks == acksXdp == Answers(es) && |acks| == |reference.replies|
    ensures forall i :: 0 <= i < |acks| ==> Word(acks[i]) == reference.replies[i].bytes
    ensures reference.publishCounter == Published(es) % 0x1_0000_0000_0000_0000
    ensures reference.cloneCounter == HeardTotal(es) % 0x1_0000_0000_0000_0000
    ensures process.Contents() == D.Run(Ops(Commands(es))) && clone.maps.Contents() == C.Run(Ops(Commands(es)))
    ensures kernel.wire == Concat(sent) && clone.wire == Concat(clones)
    ensures AllServed(es, sent, clones)
    ensures |kernel.wire| == Total(es) && kernel.cloneCounter == Total(es) % 0x1_0000_0000
  {
    hide D.Run, C.Run, ReferenceStep, EventOk, EventServed, AllServed, LegalRun, Topics, Answer, Word, Audience;
    hide ReferenceRun, Commands, Answers, Total, Concat;
    acks, acksXdp, sent, clones := [], [], [], [];
    NothingServed(es);
    for i := 0 to |es|
      invariant reference.Contents() == ReferenceRun(es[..i])
      invariant acks == acksXdp == Answers(es[..i])
      invariant process.Contents() == D.Run(Ops(Commands(es[..i]))) && clone.maps.Contents() == C.Run(Ops(Commands(es[..i])))
      invariant kernel.wire == Concat(sent) && clone.wire == Concat(clones)
      invariant AllServed(es[..i], sent, clones)
      invariant |kernel.wire| == Total(es[..i]) && kernel.cloneCounter == K.AddMany(0, |kernel.wire|)
    {
      LegalPrefix(es, i);
      CommandsLegal(es[..i]);
      var a, x;
      ghost var s, c;
      a, x, s, c := ServeEvent(process, kernel, clone, reference, es[i], Commands(es[..i]));
      AllServedSnoc(es, i, sent, clones, s, c);
      ConcatSnoc(sent, s);
      ConcatSnoc(clones, c);
      ServedSize(Commands(es[..i]), es[i], s, c);
      acks, acksXdp, sent, clones := acks + a, acksXdp + x, sent + [s], clones + [c];
      EventMore(es, i);
    }
    assert es[..|es|] == es;
    ReferenceAfter(es);
    AnswersMatch(es);
  }

  /** One event further. */
  lemma EventMore(es: seq<Event>, i: nat)
    requires i < |es|
    ensures var before, more, e := es[..i], es[..i + 1], es[i];
            && Commands(more) == (if e.Control? then Commands(before) + [e.cmd] else Commands(before))
            && Answers(more) == Answers(before) + (if e.Control? then [Answer(e.cmd)] else [])
            && ReferenceRun(more) == ReferenceStep(ReferenceRun(before), e)
            && Total(more) == Total(before) + |Audience(Commands(before), e)|
  {
    hide ReferenceStep, Answer, Audience;
    assert es[..i + 1][..i] == es[..i];
  }

  lemma NothingServed(es: seq<Event>)
    ensures es[..0] == [] && AllServed(es[..0], [], []) && Ops([]) == [] && Concat([]) == []
    ensures Commands([]) == [] && Answers([]) == [] && Total([]) == 0 && ReferenceRun([]) == R.EMPTY
    ensures D.Run([]) == D.EMPTY && C.Run([]) == C.EMPTY
  {
  }

  lemma ServedSize(cs: seq<Cmd>, e: Event, sent: seq<seq<Byte>>, clones: seq<seq<Byte>>)
    requires EventServed(cs, e, sent, clones)
    ensures |sent| == |Audience(cs, e)|
  {
    hide Subscribers, NoRepeats, Since, SumsValid, Verifiable, Destination, Payload, WellSized;
    if e.Publish? {
      var who := Subscribers(cs, e.topic);
      assert |multiset(Destinations(sent))| == |sent| && |multiset(who)| == |who|;
    }
  }
}
