/** What the benchmark builds is what the brokers read: the topic it was asked to
    publish to, and behind it the stamp, the number and the payload. */
module Publishing {
  import opened Words
  import opened Frame
  import opened TopicKey
  import opened PacketOps
  import opened Utf8
  import opened Decimal
  import M = Message
  import R = ReferenceBroker
  import E = Equivalence
  import V = Delivery

  /** Everything behind the topic. */
  function Rest(ts: nat, number: nat, payload: seq<Byte>): seq<Byte> {
    Fixed(ts, 20) + [SPACE] + Fixed(number, 10) + [SPACE] + payload
  }

  lemma BuiltIsPublish(topic: seq<Byte>, ts: nat, number: nat, payload: seq<Byte>)
    ensures M.Built(topic, ts, number, payload) == R.PublishBytes(topic, Rest(ts, number, payload))
    ensures |M.Built(topic, ts, number, payload)| >= 8
    ensures M.Built(topic, ts, number, payload)[8..] == topic + [SPACE] + Rest(ts, number, payload)
  {
    hide Fixed;
    var word := Protocol.PUBLISH + [SPACE];
    assert |word| == 8;
    assert M.Built(topic, ts, number, payload) == word + (topic + [SPACE] + Rest(ts, number, payload));
    assert R.PublishBytes(topic, Rest(ts, number, payload)) == word + (topic + [SPACE] + Rest(ts, number, payload));
  }

  /** The kernel programs cut out exactly the topic. */
  lemma KernelReadsBuilt(topic: seq<Byte>, ts: nat, number: nat, payload: seq<Byte>)
    requires Plain(topic)
    ensures |M.Built(topic, ts, number, payload)| >= 8
    ensures KernelKey(M.Built(topic, ts, number, payload)[8..]) == Some(Pad(topic))
  {
    BuiltIsPublish(topic, ts, number, payload);
    PlainKeysAgree(topic, Rest(ts, number, payload), []);
  }

  /** The stamp comes first in the rest, and digits are no whitespace. */
  lemma DigitFirst(ts: nat, number: nat, payload: seq<Byte>, n: nat)
    requires n >= 20
    ensures !R.AllBlank(Decode(if |Rest(ts, number, payload)| <= n then Rest(ts, number, payload) else Rest(ts, number, payload)[..n]))
  {
    var rest := Rest(ts, number, payload);
    var kept := if |rest| <= n then rest else rest[..n];
    var head := Fixed(ts, 20);
    assert kept == head + kept[20..];
    AsciiFirst(head, kept[20..]);
    hide Decode, Fixed;
    var d := Decode(kept);
    assert d[0] == head[0] && IsDigit(head[0]);
    assert d[0] in d;
  }

  /** The Rust broker reads the same topic, and as its rest the decoded remainder,
      cut to its buffer and without trailing whitespace. */
  lemma ReferenceReadsBuilt(topic: seq<Byte>, ts: nat, number: nat, payload: seq<Byte>)
    requires 0 < |topic| < KEY_SIZE && R.AsciiWord(topic)
    ensures R.Reads(M.Built(topic, ts, number, payload))
            == R.Publish(topic, R.TrimEnd(R.RestText(topic, Rest(ts, number, payload))))
  {
    hide Decode, R.Reads, R.AllBlank, Rest, M.Built, R.PublishBytes;
    BuiltIsPublish(topic, ts, number, payload);
    DigitFirst(ts, number, payload, R.RECV_BUFFER - |topic| - 9);
    R.PublishReads(topic, Rest(ts, number, payload));
  }

  /** A frame carrying it, on any of the sixteen ports the benchmark sends to, is a
      PUBLISH to that topic for all three brokers. */
  lemma BuiltFrame(f: seq<Byte>, topic: seq<Byte>, ts: nat, number: nat, payload: seq<Byte>)
    requires HeadersOk(f) && WellSized(f) && f[36] == 192 && f[37] <= 15
    requires 0 < |topic| < KEY_SIZE && R.AsciiWord(topic)
    requires V.Payload(f) == M.Built(topic, ts, number, payload)
    ensures V.PublishFrame(f, topic, Rest(ts, number, payload))
    ensures PublishKey(f) == Some(Pad(topic))
  {
    hide Fixed, KernelKey;
    BuiltIsPublish(topic, ts, number, payload);
    var msg := M.Built(topic, ts, number, payload);
    assert msg[..8] == PUBLISH_BLANK;
    assert f[PAYLOAD..TOPIC] == V.Payload(f)[..8];
    V.FrameKey(f, topic, Rest(ts, number, payload));
  }
}
