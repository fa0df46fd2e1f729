/** One short run, computed: two subscribers and a publication that every broker
    takes to both. */
module OneRun {
  import opened Words
  import opened Frame
  import opened PacketOps
  import opened Utf8
  import opened Equivalence
  import opened Delivery
  import opened MixedRuns
  import Limits

  lemma EventAppended(es: seq<Event>, e: Event)
    requires LegalRun(es) && EventOk(Commands(es), e)
    ensures LegalRun(es + [e]) && Commands(es + [e]) == if e.Control? then Commands(es) + [e.cmd] else Commands(es)
    ensures Total(es + [e]) == Total(es) + |Audience(Commands(es), e)|
    ensures HeardTotal(es + [e]) == HeardTotal(es) + |HeardBy(Commands(es), e)|
  {
    hide EventOk, Audience, HeardBy;
    assert (es + [e])[..|es|] == es;
  }

  lemma CommandAppended(cs: seq<Cmd>, c: Cmd, t: Text)
    ensures Topics(cs + [c]) == Next(Topics(cs), c)
    ensures Since(cs + [c], t) == if c.topic != t || c.Register? then Since(cs, t) else if c.Flush? then [] else Since(cs, t) + [c.from]
  {
    hide Next;
    assert (cs + [c])[..|cs|] == cs;
  }

  const T: Text := [116]

  /** Two subscribers to "t". */
  function TwoJoin(a: Addr, b: Addr): seq<Event> {
    [Control(Register(T), a, []), Control(Subscribe(T, a), a, []), Control(Subscribe(T, b), b, [])]
  }

  lemma TwoJoined(a: Addr, b: Addr)
    requires a != b
    ensures var es := TwoJoin(a, b);
            && LegalRun(es) && Total(es) == HeardTotal(es) == 0
            && Topics(Commands(es)) == map[T := {a, b}] && Since(Commands(es), T) == [a, b]
  {
    hide Topics, Since, Commands, LegalRun, Total, HeardTotal, Next;
    var e, e', e'' := Control(Register(T), a, []), Control(Subscribe(T, a), a, []), Control(Subscribe(T, b), b, []);
    NothingYet();
    TopicsSoFar(a, b);
    EventAppended([], e);
    assert [] + [e] == [e] && [] + [e.cmd] == [e.cmd];
    EventAppended([e], e');
    assert [e] + [e'] == [e, e'] && [e.cmd] + [e'.cmd] == [e.cmd, e'.cmd];
    EventAppended([e, e'], e'');
    assert [e, e'] + [e''] == [e, e', e''] && [e.cmd, e'.cmd] + [e''.cmd] == [e.cmd, e'.cmd, e''.cmd];
  }

  lemma TopicsSoFar(a: Addr, b: Addr)
    ensures Topics([Register(T)]) == map[T := {}]
    ensures Topics([Register(T), Subscribe(T, a)]) == map[T := {a}]
    ensures Topics([Register(T), Subscribe(T, a), Subscribe(T, b)]) == map[T := {a, b}]
    ensures Since([Register(T), Subscribe(T, a), Subscribe(T, b)], T) == [a, b]
  {
    hide Topics, Since;
    var c, c', c'' := Register(T), Subscribe(T, a), Subscribe(T, b);
    NothingYet();
    CommandAppended([], c, T);
    assert [] + [c] == [c];
    CommandAppended([c], c', T);
    assert [c] + [c'] == [c, c'] && {} + {a} == {a};
    CommandAppended([c, c'], c'', T);
    assert [c, c'] + [c''] == [c, c', c''] && {a} + {b} == {a, b};
  }

  lemma NothingYet()
    ensures LegalRun([]) && Commands([]) == [] && Total([]) == HeardTotal([]) == 0 && Topics([]) == map[] && Since([], T) == []
  {
  }

  /** Such a run is legal, and a publication to port 49152 with sums that verify
      reaches both through every broker, byte for byte. */
  lemma TwoAreServed(a: Addr, b: Addr, sender: Addr)
    requires a != b
    ensures var f, es := Limits.OddFrame(), TwoJoin(a, b) + [Publish(Limits.OddFrame(), T, Limits.ODD, sender)];
            && LegalRun(es) && Total(es) == HeardTotal(es) == 2
            && HeadersOk(f) && WellSized(f)
            && Heard(Topics(Commands(es)), f) == R.OutOf({a, b}, Payload(f)) && NoRepeats(Since(Commands(es), T))
  {
    hide Topics, Since, Commands, LegalRun, Total, HeardTotal, R.OutOf, Heard, Payload, TwoJoin, Limits.OddFrame, PublishFrame;
    TwoJoined(a, b);
    OddFrameGoesTo(a, b);
    EventAppended(TwoJoin(a, b), Publish(Limits.OddFrame(), T, Limits.ODD, sender));
  }

  lemma OddFrameGoesTo(a: Addr, b: Addr)
    requires a != b
    ensures var f := Limits.OddFrame();
            && PublishFrame(f, T, Limits.ODD) && HeadersOk(f) && WellSized(f)
            && Heard(map[T := {a, b}], f) == R.OutOf({a, b}, Payload(f)) && |R.OutOf({a, b}, Payload(f))| == 2
  {
    hide R.OutOf, Heard, Faithful, Payload, Limits.OddFrame;
    OddFrameHeard();
    hide PublishFrame, Listening;
    HeardIff(map[T := {a, b}], Limits.OddFrame(), T, Limits.ODD);
    R.OutSize({a, b}, Payload(Limits.OddFrame()));
  }

  lemma OddFrameHeard()
    ensures PublishFrame(Limits.OddFrame(), T, Limits.ODD) && Faithful(Limits.OddFrame())
    ensures HeadersOk(Limits.OddFrame()) && WellSized(Limits.OddFrame())
  {
    hide SumsValid, R.Unaltered, Limits.OddFrame, Payload, R.PublishBytes;
    var f := Limits.OddFrame();
    OddFrameArrives();
    PlainUnaltered(Payload(f));
  }

  lemma OddFrameArrives()
    ensures var f := Limits.OddFrame();
            HeadersOk(f) && WellSized(f) && ChecksumsValid(f) && Be16(f, DPORT) == 49152 && PublishToBroker(f)
            && Payload(f) == Limits.PREFIX + Limits.ODD == R.PublishBytes(T, Limits.ODD)
  {
    hide SumsValid;
    var f := Limits.OddFrame();
    Limits.OddFrameIsValid();
    SumsAreAccepted(f);
    hide Limits.FrameOf;
    assert Payload(f) == f[PAYLOAD..];
  }

  lemma SumsAreAccepted(f: seq<Byte>)
    requires SumsValid(f)
    ensures ChecksumsValid(f)
  {
    hide IpCovered, UdpCovered;
  }

  lemma PlainUnaltered(p: seq<Byte>)
    requires 0 < |p| < 4096 && (forall i :: 0 <= i < |p| ==> p[i] < 0x80) && p[0] > 32 && p[|p| - 1] > 32
    ensures R.Unaltered(p)
  {
    AsciiFirst(p, []);
    R.AsciiEncodes(p, []);
    assert p + [] == p;
    EncodeOfDecodeIff(p);
  }
}
