/** A whole measurement, in bytes: publishers stamp messages, brokers copy them,
    workers parse and track what arrives, and the report speaks of the packets
    that were sent. */
module Trial {
  import opened Words
  import opened TopicKey
  import opened Decimal
  import opened Message
  import opened Aggregation
  import Protocol

  /** A datagram as a worker receives it, and when. */
  datatype Packet = Packet(bytes: seq<Byte>, at: nat)

  /** What a worker makes of it: nothing, or one arrival. */
  function ArrivalOf(p: Packet): Option<Arrival> {
    if !(Protocol.PUBLISH + [SPACE] <= p.bytes) then None
    else
      match NumberIn(Field(p.bytes, 2), U128_RANGE)
      case None => None
      case Some(ts) =>
        match NumberIn(Field(p.bytes, 3), U64_RANGE)
        case None => None
        case Some(number) => Some(Arrival(number, ts, p.at))
  }

  method ReadPacket(p: Packet) returns (a: Option<Arrival>)
    ensures a == ArrivalOf(p)
  {
    if !(Protocol.PUBLISH + [SPACE] <= p.bytes) {
      return None;
    }
    var ts := ParseTimestampNs(p.bytes);
    var number := ParseSeqNumber(p.bytes);
    if ts == None || number == None {
      return None;
    }
    return Some(Arrival(number.value, ts.value, p.at));
  }

  function Arrivals(ps: seq<Packet>): seq<Arrival> {
    if ps == [] then []
    else
      var before := Arrivals(ps[..|ps| - 1]);
      match ArrivalOf(ps[|ps| - 1]) case None => before case Some(a) => before + [a]
  }

  method ReadAll(ps: seq<Packet>) returns (arrivals: seq<Arrival>)
    ensures arrivals == Arrivals(ps)
  {
    hide ArrivalOf;
    arrivals := [];
    for i := 0 to |ps|
      invariant arrivals == Arrivals(ps[..i])
    {
      var a := ReadPacket(ps[i]);
      if a.Some? {
        arrivals := arrivals + [a.value];
      }
      assert ps[..i + 1][..i] == ps[..i];
    }
    assert ps[..|ps|] == ps;
  }

  // --------------------------------------------------- what was published

  /** Everything published: packet `n` carries the stamp and payload `n`. */
  datatype Sent = Sent(topic: seq<Byte>, stamps: seq<nat>, payloads: seq<seq<Byte>>)

  /** A blank-free topic, stamps of at most 20 digits, and no more packets than
      the ten digits of the sequence field tell apart. */
  predicate Readable(s: Sent) {
    && SPACE !in s.topic && |s.payloads| == |s.stamps| <= Pow10(SEQ_LEN)
    && forall n :: 0 <= n < |s.stamps| ==> s.stamps[n] < Pow10(TS_LEN)
  }

  /** One copy of packet `number`, received at `at`. */
  datatype Copy = Copy(number: nat, at: nat)

  predicate Of(s: Sent, cs: seq<Copy>) {
    |s.payloads| == |s.stamps| && forall i :: 0 <= i < |cs| ==> cs[i].number < |s.stamps|
  }

  function Wire(s: Sent, cs: seq<Copy>): seq<Packet>
    requires Of(s, cs)
  {
    seq(|cs|, i requires 0 <= i < |cs| =>
      Packet(Built(s.topic, s.stamps[cs[i].number], cs[i].number, s.payloads[cs[i].number]), cs[i].at))
  }

  /** What a worker reads off a copy, whatever its number and stamp. */
  lemma CopyIsRead(topic: seq<Byte>, ts: nat, number: nat, payload: seq<Byte>, at: nat)
    requires SPACE !in topic
    ensures 0 <= number % Pow10(SEQ_LEN) < U64_RANGE
    ensures ArrivalOf(Packet(Built(topic, ts, number, payload), at))
            == Some(Arrival(number % Pow10(SEQ_LEN), ts % Pow10(TS_LEN), at))
  {
    hide Fixed, Field, Pow10, NumberIn;
    WidthsFit();
    MessageRoundTrip(topic, ts, number, payload);
    Below(number, Pow10(SEQ_LEN));
    assert Protocol.PUBLISH + [SPACE] <= Built(topic, ts, number, payload);
  }

  lemma Below(n: nat, m: nat)
    requires m > 0
    ensures n % m < m && (n < m ==> n % m == n)
  {
  }

  /** The arrivals the copies stand for. */
  function Landed(s: Sent, cs: seq<Copy>): seq<Arrival>
    requires Readable(s) && Of(s, cs)
  {
    WidthsFit();
    seq(|cs|, i requires 0 <= i < |cs| => Arrival(cs[i].number, s.stamps[cs[i].number], cs[i].at))
  }

  /** Acknowledgements and whatever else is no publication. */
  predicate Noise(p: Packet) {
    !(Protocol.Ascii("PUBLISH ") <= p.bytes)
  }

  lemma NoiseIsSkipped(p: Packet)
    requires Noise(p)
    ensures ArrivalOf(p) == None
  {
    assert Protocol.PUBLISH + [SPACE] == Protocol.Ascii("PUBLISH ");
  }

  /** `ps` are the copies `cs`, in order, with noise in between. */
  predicate Carries(s: Sent, ps: seq<Packet>, cs: seq<Copy>)
    requires Of(s, cs)
  {
    if ps == [] then cs == []
    else
      var n := |ps| - 1;
      || (Noise(ps[n]) && Carries(s, ps[..n], cs))
      || (cs != [] && ps[n] == Wire(s, cs)[|cs| - 1] && Carries(s, ps[..n], cs[..|cs| - 1]))
  }

  lemma {:induction false} CopiesAreRead(s: Sent, ps: seq<Packet>, cs: seq<Copy>)
    requires Readable(s) && Of(s, cs) && Carries(s, ps, cs)
    ensures Arrivals(ps) == Landed(s, cs)
  {
    hide ArrivalOf, Pow10;
    if ps == [] {
      assert Landed(s, cs) == [];
    } else if Noise(ps[|ps| - 1]) && Carries(s, ps[..|ps| - 1], cs) {
      CopiesAreRead(s, ps[..|ps| - 1], cs);
      NoiseIsSkipped(ps[|ps| - 1]);
    } else {
      var n := |cs| - 1;
      var c := cs[n];
      CopiesAreRead(s, ps[..|ps| - 1], cs[..n]);
      CopyIsRead(s.topic, s.stamps[c.number], c.number, s.payloads[c.number], c.at);
      Below(c.number, Pow10(SEQ_LEN));
      Below(s.stamps[c.number], Pow10(TS_LEN));
      assert Landed(s, cs) == Landed(s, cs[..n]) + [Arrival(c.number, s.stamps[c.number], c.at)];
    }
  }

  // ------------------------------------------------------------ the report

  function CopyCount(cs: seq<Copy>, n: nat): nat {
    if cs == [] then 0
    else CopyCount(cs[..|cs| - 1], n) + (if cs[|cs| - 1].number == n then 1 else 0)
  }

  ghost predicate CopySamples(order: seq<nat>, latencies: seq<nat>, s: Sent, cs: seq<Copy>, subs: nat) {
    && |latencies| == |order| && Distinct(order)
    && (forall n :: n in order <==> CopyCount(cs, n) == subs > 0)
    && forall i :: 0 <= i < |order| ==> LastCopyOf(s, cs, order[i], latencies[i])
  }

  /** The last copy's arrival minus the stamp of packet `n`, saturating. */
  ghost predicate LastCopyOf(s: Sent, cs: seq<Copy>, n: nat, latency: nat) {
    && n < |s.stamps|
    && exists last :: last in cs && last.number == n && (forall c :: c in cs && c.number == n ==> c.at <= last.at)
         && latency == if last.at < s.stamps[n] then 0 else last.at - s.stamps[n]
  }

  lemma {:induction false} LandedCount(s: Sent, cs: seq<Copy>, n: nat)
    requires Readable(s) && Of(s, cs)
    ensures n < U64_RANGE ==> Count(Landed(s, cs), n) == CopyCount(cs, n)
    ensures n >= |s.stamps| ==> CopyCount(cs, n) == 0
  {
    hide Pow10;
    if cs == [] {
      assert Landed(s, cs) == [];
    } else {
      var m := |cs| - 1;
      LandedCount(s, cs[..m], n);
      assert Landed(s, cs)[..m] == Landed(s, cs[..m]);
    }
  }

  lemma LandedLatency(s: Sent, cs: seq<Copy>, k: U64, latency: nat)
    requires Readable(s) && Of(s, cs) && CopyCount(cs, k) > 0 && LastCopyLatency(Landed(s, cs), k, latency)
    ensures LastCopyOf(s, cs, k, latency)
  {
    hide Pow10;
    var all := Landed(s, cs);
    LandedCount(s, cs, k);
    FirstSentIsSent(all, k);
    var a :| a in all && a.number == k && a.sentAt == FirstSent(all, k);
    var last :| last in all && last.number == k && (forall b :: b in all && b.number == k ==> b.at <= last.at)
                && latency == if last.at < FirstSent(all, k) then 0 else last.at - FirstSent(all, k);
    var i :| 0 <= i < |all| && all[i] == last;
    assert cs[i] in cs;
    forall c | c in cs && c.number == k ensures c.at <= cs[i].at {
      var j :| 0 <= j < |cs| && cs[j] == c;
      assert all[j] in all;
    }
  }

  /** Copies of stamped messages carry one send time per number. */
  lemma StampedOnce(s: Sent, cs: seq<Copy>)
    requires Readable(s) && Of(s, cs)
    ensures OneSendTime(Landed(s, cs))
  {
  }

  function AllCopies(shards: seq<seq<Copy>>): seq<Copy> {
    if shards == [] then [] else AllCopies(shards[..|shards| - 1]) + shards[|shards| - 1]
  }

  function LandedShards(s: Sent, shards: seq<seq<Copy>>): seq<seq<Arrival>>
    requires Readable(s) && forall i :: 0 <= i < |shards| ==> Of(s, shards[i])
  {
    seq(|shards|, i requires 0 <= i < |shards| => Landed(s, shards[i]))
  }

  lemma {:induction false} ShardsLand(s: Sent, shards: seq<seq<Copy>>)
    requires Readable(s) && forall i :: 0 <= i < |shards| ==> Of(s, shards[i])
    ensures Of(s, AllCopies(shards)) && Flatten(LandedShards(s, shards)) == Landed(s, AllCopies(shards))
  {
    hide Pow10;
    if shards != [] {
      var n := |shards| - 1;
      ShardsLand(s, shards[..n]);
      assert LandedShards(s, shards)[..n] == LandedShards(s, shards[..n]);
      var a, b := AllCopies(shards[..n]), shards[n];
      assert Landed(s, a + b) == Landed(s, a) + Landed(s, b);
    }
  }

  lemma ReportOfCopies(s: Sent, cs: seq<Copy>, latencies: seq<nat>, subs: nat)
    requires Readable(s) && Of(s, cs) && Reported(latencies, Landed(s, cs), subs)
    ensures exists order :: CopySamples(order, latencies, s, cs, subs)
  {
    hide Pow10, Landed, LastCopyOf, LastCopyLatency;
    var keys: seq<U64> :| Samples(keys, latencies, Landed(s, cs), subs);
    var order: seq<nat> := keys;
    forall n: nat ensures n in order <==> CopyCount(cs, n) == subs > 0 {
      LandedCount(s, cs, n);
      NumbersFit(s);
    }
    forall i | 0 <= i < |order| ensures LastCopyOf(s, cs, order[i], latencies[i]) {
      assert order[i] in order;
      LandedLatency(s, cs, keys[i], latencies[i]);
    }
    assert CopySamples(order, latencies, s, cs, subs);
  }

  lemma NumbersFit(s: Sent)
    requires Readable(s)
    ensures |s.stamps| <= U64_RANGE
  {
    WidthsFit();
  }

  /** The measurement as a whole.  For any split of the received copies of what
      was published over workers, no more than 500000 different packets to any of
      them, the report is one sample for each packet that all `subs` subscribers
      received: its last copy's arrival minus the time it was stamped with.
      Datagrams that are no PUBLISH may arrive in between. */
  method Measure(wire: seq<seq<Packet>>, subs: nat, ghost s: Sent, ghost shards: seq<seq<Copy>>) returns (latencies: seq<nat>)
    requires Readable(s) && |wire| == |shards|
    requires forall i :: 0 <= i < |shards| ==> Of(s, shards[i]) && Carries(s, wire[i], shards[i]) && |Numbers(Landed(s, shards[i]))| <= MAX_TRACKED_PKTS
    ensures exists order :: CopySamples(order, latencies, s, AllCopies(shards), subs)
  {
    hide Pow10, Numbers, AllCounted, Wire, Carries, Landed, Arrivals, CopySamples, Flatten, AllCopies, Reported;
    var arrivals: seq<seq<Arrival>> := [];
    for i := 0 to |wire|
      invariant |arrivals| == i && forall j :: 0 <= j < i ==> arrivals[j] == Landed(s, shards[j])
    {
      CopiesAreRead(s, wire[i], shards[i]);
      var read := ReadAll(wire[i]);
      arrivals := arrivals + [read];
    }
    assert arrivals == LandedShards(s, shards);
    latencies := Report(arrivals, subs);
    NothingLost(arrivals);
    ShardsLand(s, shards);
    ReportOfCopies(s, AllCopies(shards), latencies, subs);
  }
}
