/** The benchmark's message, "PUBLISH <topic> <timestamp> <sequence> <payload>":
    how the publisher builds it and how the subscriber reads it back. */
module Message {
  import opened Words
  import opened TopicKey
  import opened Decimal
  import opened Protocol

  const TS_LEN: nat := 20
  const SEQ_LEN: nat := 10

  function Template(topic: seq<Byte>, ts: seq<Byte>, number: seq<Byte>, payload: seq<Byte>): seq<Byte> {
    PUBLISH + [SPACE] + topic + [SPACE] + ts + [SPACE] + number + [SPACE] + payload
  }

  function Built(topic: seq<Byte>, ts: nat, number: nat, payload: seq<Byte>): seq<Byte> {
    Template(topic, Fixed(ts, TS_LEN), Fixed(number, SEQ_LEN), payload)
  }

  function TsStart(topic: seq<Byte>): nat {
    |PUBLISH| + 1 + |topic| + 1
  }

  function SeqStart(topic: seq<Byte>): nat {
    TsStart(topic) + TS_LEN + 1
  }

  /** Per packet: the two fields are overwritten in the shared template. */
  method Stamp(msg: array<Byte>, topic: seq<Byte>, payload: seq<Byte>, nowNs: nat, number: nat,
               ghost ts: seq<Byte>, ghost last: seq<Byte>)
    requires |ts| == TS_LEN && |last| == SEQ_LEN && msg[..] == Template(topic, ts, last, payload)
    requires nowNs < U128_RANGE && number < U64_RANGE
    modifies msg
    ensures msg[..] == Built(topic, nowNs, number, payload)
  {
    hide Fixed;
    ghost var a, z := PUBLISH + [SPACE] + topic + [SPACE], [SPACE] + payload;
    var at, seqAt := TsStart(topic), SeqStart(topic);
    assert msg[..at] == a && msg[at + TS_LEN..seqAt] == [SPACE] && msg[seqAt + SEQ_LEN..] == z;
    WriteU128Fixed(msg, at, TS_LEN, nowNs);
    assert msg[at + TS_LEN..][..1] == [SPACE] && msg[at + TS_LEN..][1 + SEQ_LEN..] == z;
    assert msg[..seqAt] == a + Fixed(nowNs, TS_LEN) + [SPACE];
    WriteU128Fixed(msg, seqAt, SEQ_LEN, number);
    assert msg[..] == msg[..seqAt] + msg[seqAt..seqAt + SEQ_LEN] + msg[seqAt + SEQ_LEN..];
  }

  // ------------------------------------------------------------- reading

  /** Where field `n` begins: one past the `n`-th blank, or past the end when
      there are fewer blanks. */
  function FieldStart(msg: seq<Byte>, n: nat): (r: nat)
    ensures r <= |msg| + 1
  {
    if n == 0 then 0
    else
      var p := FieldStart(msg, n - 1);
      if p > |msg| then |msg| + 1 else p + Until(msg[p..], {SPACE}) + 1
  }

  /** The bytes of field `n`, if the message has that many. */
  function Field(msg: seq<Byte>, n: nat): Option<seq<Byte>> {
    if FieldStart(msg, n) > |msg| then None
    else Some(msg[FieldStart(msg, n)..FieldStart(msg, n + 1) - 1])
  }

  function NumberIn(field: Option<seq<Byte>>, range: nat): Option<nat>
    requires range > 0
  {
    if field.Some? then Parsed(field.value, range) else None
  }

  /** The scan has passed exactly `spaces` blanks before `i`. */
  predicate Scanned(msg: seq<Byte>, i: nat, spaces: nat) {
    i <= |msg| && FieldStart(msg, spaces) <= i < FieldStart(msg, spaces + 1)
  }

  lemma ScanStep(msg: seq<Byte>, i: nat, spaces: nat)
    requires Scanned(msg, i, spaces) && i < |msg|
    ensures msg[i] == SPACE ==> FieldStart(msg, spaces + 1) == i + 1 && Scanned(msg, i + 1, spaces + 1)
    ensures msg[i] != SPACE ==> Scanned(msg, i + 1, spaces)
  {
    hide Until;
    var p := FieldStart(msg, spaces);
    assert msg[i] == msg[p..][i - p];
  }

  lemma ScanStart(msg: seq<Byte>)
    ensures Scanned(msg, 0, 0)
  {
  }

  /** The scan both parsers make: the start of field `n` is noted at the
      `n`-th blank and the field ends at the next one, or with the message. */
  method FindField(msg: seq<Byte>, n: nat) returns (field: Option<seq<Byte>>)
    requires n > 0
    ensures field == if Field(msg, n) == Some([]) && FieldStart(msg, n) == |msg| then None else Field(msg, n)
  {
    hide FieldStart, Scanned;
    var spaces, start := 0, 0;
    ScanStart(msg);
    for i := 0 to |msg|
      invariant spaces <= n && Scanned(msg, i, spaces)
      invariant spaces == n ==> start == FieldStart(msg, n) <= i
    {
      ScanStep(msg, i, spaces);
      if msg[i] == SPACE {
        spaces := spaces + 1;
        if spaces == n {
          start := i + 1;
        } else if spaces == n + 1 {
          FieldBounds(msg, i, n);
          return Some(msg[start..i]);
        }
      }
    }
    ScanEnd(msg, spaces, n);
    if spaces == n && start < |msg| {
      FieldBounds(msg, |msg|, n);
      assert msg[start..] == msg[start..|msg|];
      return Some(msg[start..]);
    }
    return None;
  }

  lemma FieldBounds(msg: seq<Byte>, i: nat, n: nat)
    requires FieldStart(msg, n) <= |msg| && FieldStart(msg, n + 1) == i + 1
    ensures FieldStart(msg, n) <= i <= |msg|
    ensures Field(msg, n) == Some(msg[FieldStart(msg, n)..i])
  {
    assert FieldStart(msg, n + 1) == if FieldStart(msg, n) > |msg| then |msg| + 1
      else FieldStart(msg, n) + Until(msg[FieldStart(msg, n)..], {SPACE}) + 1;
  }

  lemma {:induction false} ScanEnd(msg: seq<Byte>, spaces: nat, n: nat)
    requires Scanned(msg, |msg|, spaces) && spaces <= n
    ensures spaces == n ==> FieldStart(msg, n) <= |msg| && FieldStart(msg, n + 1) == |msg| + 1
    ensures spaces < n ==> FieldStart(msg, n) == |msg| + 1
  {
    if spaces < n {
      ScanEnd(msg, spaces, n - 1);
    }
  }

  method ParseTimestampNs(msg: seq<Byte>) returns (r: Option<nat>)
    ensures r == NumberIn(Field(msg, 2), U128_RANGE)
  {
    var field := FindField(msg, 2);
    if field == None {
      return None;
    }
    r := ParseDecimalU128(field.value);
  }

  method ParseSeqNumber(msg: seq<Byte>) returns (r: Option<nat>)
    ensures r == NumberIn(Field(msg, 3), U64_RANGE)
  {
    var field := FindField(msg, 3);
    if field == None {
      return None;
    }
    r := ParseDecimalU64(field.value);
  }

  // ---------------------------------------------------------- round trip

  lemma NextField(msg: seq<Byte>, n: nat, p: nat, w: seq<Byte>, tail: seq<Byte>)
    requires FieldStart(msg, n) == p <= |msg| && msg[p..] == w + [SPACE] + tail && SPACE !in w
    ensures FieldStart(msg, n + 1) == p + |w| + 1 <= |msg| && msg[p + |w| + 1..] == tail
    ensures Field(msg, n) == Some(w)
  {
    UntilIs(msg[p..], {SPACE}, |w|);
    assert msg[p + |w| + 1..] == msg[p..][|w| + 1..];
    assert msg[p..p + |w|] == msg[p..][..|w|] == w;
    FieldBounds(msg, p + |w|, n);
  }

  lemma NoBlankInDigits(v: nat, width: nat)
    ensures SPACE !in Fixed(v, width)
  {
  }

  /** End to end: for every blank-free topic and every payload, empty or not,
      the subscriber reads back the timestamp and the sequence number, each
      modulo its field width. */
  lemma MessageRoundTrip(topic: seq<Byte>, ts: nat, number: nat, payload: seq<Byte>)
    requires SPACE !in topic
    ensures var msg := Built(topic, ts, number, payload);
            NumberIn(Field(msg, 2), U128_RANGE) == Some(ts % Pow10(TS_LEN)) &&
            NumberIn(Field(msg, 3), U64_RANGE) == Some(number % Pow10(SEQ_LEN)) &&
            (NumberIn(Field(msg, 2), U128_RANGE) == Some(ts) <==> ts < Pow10(TS_LEN)) &&
            (NumberIn(Field(msg, 3), U64_RANGE) == Some(number) <==> number < Pow10(SEQ_LEN))
  {
    hide Until, Fixed, FieldStart;
    var msg := Built(topic, ts, number, payload);
    var t, s := Fixed(ts, TS_LEN), Fixed(number, SEQ_LEN);
    var tail2 := s + [SPACE] + payload;
    var tail1 := t + [SPACE] + tail2;
    var tail0 := topic + [SPACE] + tail1;
    FieldsBegin(msg);
    assert msg[0..] == PUBLISH + [SPACE] + tail0;
    NextField(msg, 0, 0, PUBLISH, tail0);
    NextField(msg, 1, 8, topic, tail1);
    NoBlankInDigits(ts, TS_LEN);
    NextField(msg, 2, 8 + |topic| + 1, t, tail2);
    NoBlankInDigits(number, SEQ_LEN);
    NextField(msg, 3, 8 + |topic| + 1 + TS_LEN + 1, s, payload);
    WidthsFit();
    FixedRoundTrip(ts, TS_LEN, U128_RANGE);
    FixedRoundTrip(number, SEQ_LEN, U64_RANGE);
  }

  /** The whole layout: command word, topic, the two fixed-width fields, and after
      the fourth blank nothing but the payload, blanks and all. */
  lemma BuiltLayout(topic: seq<Byte>, ts: nat, number: nat, payload: seq<Byte>)
    requires SPACE !in topic
    ensures var msg := Built(topic, ts, number, payload);
            && |msg| == |topic| + |payload| + 41
            && Field(msg, 0) == Some(PUBLISH) && Field(msg, 1) == Some(topic)
            && Field(msg, 2) == Some(Fixed(ts, 20)) && Field(msg, 3) == Some(Fixed(number, 10))
            && FieldStart(msg, 4) == |topic| + 41 && msg[|topic| + 41..] == payload
  {
    hide Until, Fixed, FieldStart;
    var msg := Built(topic, ts, number, payload);
    var t, s := Fixed(ts, TS_LEN), Fixed(number, SEQ_LEN);
    var tail2 := s + [SPACE] + payload;
    var tail1 := t + [SPACE] + tail2;
    var tail0 := topic + [SPACE] + tail1;
    FieldsBegin(msg);
    assert |PUBLISH| == 7 && SPACE !in PUBLISH;
    assert msg[0..] == PUBLISH + [SPACE] + tail0;
    NextField(msg, 0, 0, PUBLISH, tail0);
    NextField(msg, 1, 8, topic, tail1);
    NoBlankInDigits(ts, TS_LEN);
    NextField(msg, 2, 8 + |topic| + 1, t, tail2);
    NoBlankInDigits(number, SEQ_LEN);
    NextField(msg, 3, 8 + |topic| + 1 + TS_LEN + 1, s, payload);
  }

  lemma FieldsBegin(msg: seq<Byte>)
    ensures FieldStart(msg, 0) == 0
  {
  }

  lemma WidthsFit()
    ensures Pow10(TS_LEN) <= U128_RANGE && Pow10(SEQ_LEN) <= U64_RANGE
  {
    Pow10Sum(10, 10);
    Pow10Sum(5, 5);
    assert Pow10(5) == 100000;
  }
}
