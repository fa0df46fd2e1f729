/** The 20-byte map key of a topic, derived in two places: the kernel
    programs cut it out of "PUBLISH topic ...", the daemon out of the rest of
    a REGISTER, SUBSCRIBE or FLUSH datagram. */
module TopicKey {
  import opened Words

  const KEY_SIZE: nat := 20
  const NUL: Byte := 0
  const NEWLINE: Byte := 10
  const RETURN: Byte := 13
  const SPACE: Byte := 32

  type Key = k: seq<Byte> | |k| == KEY_SIZE witness seq(KEY_SIZE, _ => 0)

  function Zeros(n: nat): (r: seq<Byte>)
    ensures |r| == n && forall i :: 0 <= i < n ==> r[i] == NUL
  {
    seq(n, _ => NUL)
  }

  function Pad(t: seq<Byte>): Key
    requires |t| <= KEY_SIZE
  {
    t + Zeros(KEY_SIZE - |t|)
  }

  /** Length of the longest prefix free of the `stops`. */
  function Until<T(==)>(t: seq<T>, stops: set<T>): (n: nat)
    ensures n <= |t|
    ensures forall i :: 0 <= i < n ==> t[i] !in stops
    ensures n < |t| ==> t[n] in stops
  {
    if |t| == 0 || t[0] in stops then 0 else 1 + Until(t[1..], stops)
  }

  lemma UntilIs<T>(t: seq<T>, stops: set<T>, n: nat)
    requires n <= |t| && (forall i :: 0 <= i < n ==> t[i] !in stops) && (n < |t| ==> t[n] in stops)
    ensures Until(t, stops) == n
  {
  }

  const KERNEL_STOPS: set<Byte> := {SPACE, NUL, NEWLINE}
  const DAEMON_STOPS: set<Byte> := {NUL, NEWLINE, RETURN}

  /** `extract_topic_id` on the bytes from the topic to the end of the frame:
      the first delimiter ends the topic; without one in the first 20 bytes the
      first 19 are used, or nothing if the frame is shorter. */
  function KernelKey(text: seq<Byte>): Option<Key> {
    var n := Until(text, KERNEL_STOPS);
    if n < |text| && n < KEY_SIZE then Some(Pad(text[..n]))
    else if |text| >= KEY_SIZE then Some(Pad(text[..KEY_SIZE - 1]))
    else None
  }

  /** `main` and `add_topic`/`add_subscriber`/`flush_topic` on the bytes after
      the command word; the receive buffer ends in a NUL. */
  function DaemonKey(raw: seq<Byte>): Option<Key> {
    var n := Until(raw, DAEMON_STOPS);
    if n < KEY_SIZE then Some(Pad(raw[..n])) else None
  }

  method ExtractTopicId(pkt: array<Byte>, s: nat, outId: array<Byte>) returns (r: int)
    requires s <= pkt.Length && outId.Length == KEY_SIZE && outId[..] == Zeros(KEY_SIZE) && pkt != outId
    modifies outId
    ensures r == 0 <==> KernelKey(pkt[s..]).Some?
    ensures r == 0 ==> KernelKey(pkt[s..]) == Some(outId[..])
    ensures r == 0 || r == -1
  {
    ghost var text := pkt[s..];
    for i := 0 to KEY_SIZE
      invariant i <= |text| && pkt[s..] == text
      invariant forall k :: 0 <= k < i ==> text[k] !in KERNEL_STOPS && outId[k] == text[k]
      invariant forall k :: i <= k < KEY_SIZE ==> outId[k] == NUL
    {
      if s + i + 1 > pkt.Length {
        UntilIs(text, KERNEL_STOPS, i);
        return -1;
      }
      var c := pkt[s + i];
      assert c == text[i];
      if c == SPACE || c == NUL || c == NEWLINE {
        outId[i] := NUL;
        UntilIs(text, KERNEL_STOPS, i);
        assert outId[..] == Pad(text[..i]);
        return 0;
      }
      outId[i] := c;
    }
    outId[KEY_SIZE - 1] := NUL;
    assert outId[..] == Pad(text[..KEY_SIZE - 1]);
    return 0;
  }

  /** The buffer handling in `main`: bounded copy, trim at the first line end,
      then the length test every operation makes. `buf` is the received
      datagram with its terminating NUL. */
  method ReadTopic(buf: array<Byte>, raw: nat, topicKey: array<Byte>) returns (ok: bool)
    requires raw < buf.Length && buf[buf.Length - 1] == NUL
    requires topicKey.Length == KEY_SIZE && topicKey[..] == Zeros(KEY_SIZE) && buf != topicKey
    modifies topicKey
    ensures ok <==> DaemonKey(buf[raw..buf.Length - 1]).Some?
    ensures ok ==> DaemonKey(buf[raw..buf.Length - 1]) == Some(KeyOf(topicKey[..]))
  {
    hide Until;
    ghost var text := buf[raw..buf.Length - 1];
    ghost var whole := buf[..];
    var topicLen := 0;
    while topicLen < KEY_SIZE && buf[raw + topicLen] != NUL
      invariant topicLen <= KEY_SIZE && topicLen <= |text| && buf[..] == whole
      invariant forall k :: 0 <= k < topicLen ==> text[k] != NUL && topicKey[k] == text[k]
      invariant forall k :: topicLen <= k < KEY_SIZE ==> topicKey[k] == NUL
    {
      topicKey[topicLen] := buf[raw + topicLen];
      topicLen := topicLen + 1;
    }
    var i := 0;
    while i < KEY_SIZE && topicKey[i] != NEWLINE && topicKey[i] != RETURN
      invariant i <= KEY_SIZE
      invariant forall k :: 0 <= k < i ==> topicKey[k] != NEWLINE && topicKey[k] != RETURN
    {
      i := i + 1;
    }
    if i < KEY_SIZE {
      topicKey[i] := NUL;
    }
    var n := if i < topicLen then i else topicLen;
    assert n < |text| && n < KEY_SIZE ==> buf[raw + n] == text[n];
    if n < KEY_SIZE {
      UntilIs(text, DAEMON_STOPS, n);
      UntilIs(topicKey[..], {NUL}, n);
      assert topicKey[..n] == text[..n];
    }
    ok := n < KEY_SIZE;
  }

  /** The C string in a key buffer, zero-padded again. */
  function KeyOf(buffer: seq<Byte>): Key
    requires |buffer| == KEY_SIZE
  {
    Pad(buffer[..Until(buffer, {NUL})])
  }

  // ---------------------------------------------------------- agreement

  /** A topic both sides read in full. */
  predicate Plain(t: seq<Byte>) {
    |t| < KEY_SIZE && forall i :: 0 <= i < |t| ==> t[i] !in KERNEL_STOPS + DAEMON_STOPS
  }

  lemma PadInjective(a: seq<Byte>, b: seq<Byte>)
    requires |a| <= KEY_SIZE && |b| <= KEY_SIZE && NUL !in a && NUL !in b
    ensures Pad(a) == Pad(b) <==> a == b
  {
    UntilIs(Pad(a), {NUL}, |a|);
    UntilIs(Pad(b), {NUL}, |b|);
    assert a == Pad(a)[..|a|] && b == Pad(b)[..|b|];
  }

  /** For every topic text: publishing to it and subscribing to it meet at the
      same key exactly when the part before the first NUL or line end has at
      most 19 bytes, contains no space, and does not stop at a carriage return
      (which the kernel reads as part of the topic) before byte 19. */
  lemma KeysAgreeIff(t: seq<Byte>, rest: seq<Byte>)
    ensures var n := Until(t, DAEMON_STOPS);
            KernelKey(t + [SPACE] + rest) == DaemonKey(t)
            <==> n < KEY_SIZE && SPACE !in t[..n] && (n < |t| && t[n] == RETURN ==> n == KEY_SIZE - 1)
  {
    hide Until, Pad;
    var n, cut := Until(t, DAEMON_STOPS), KernelCut(t);
    KernelReadsCut(t, rest);
    if n < KEY_SIZE {
      assert NUL !in t[..n] && NUL !in t[..cut];
      PadInjective(t[..cut], t[..n]);
      assert |t[..cut]| == cut && |t[..n]| == n;
      CutsAgree(t);
    }
  }

  /** What the kernel makes of the topic inside a PUBLISH. */
  lemma KernelReadsCut(t: seq<Byte>, rest: seq<Byte>)
    ensures KernelKey(t + [SPACE] + rest) == Some(Pad(t[..KernelCut(t)]))
  {
    hide Until, Pad;
    var text := t + [SPACE] + rest;
    UntilIs(text, KERNEL_STOPS, Until(t, KERNEL_STOPS));
    assert text[..KernelCut(t)] == t[..KernelCut(t)];
  }

  function KernelCut(t: seq<Byte>): (n: nat)
    ensures n <= |t| && n < KEY_SIZE
  {
    var k := Until(t, KERNEL_STOPS);
    if k < KEY_SIZE then k else KEY_SIZE - 1
  }

  lemma CutsAgree(t: seq<Byte>)
    requires Until(t, DAEMON_STOPS) < KEY_SIZE
    ensures var n := Until(t, DAEMON_STOPS);
            KernelCut(t) == n <==> SPACE !in t[..n] && (n < |t| && t[n] == RETURN ==> n == KEY_SIZE - 1)
  {
    hide Until;
    var n, k := Until(t, DAEMON_STOPS), Until(t, KERNEL_STOPS);
    if SPACE in t[..n] {
      var i :| 0 <= i < n && t[..n][i] == SPACE;
      assert t[i] in KERNEL_STOPS;
      assert k <= i;
    } else {
      forall i | 0 <= i < n ensures t[i] !in KERNEL_STOPS {
        assert t[i] == t[..n][i] && t[i] !in DAEMON_STOPS;
      }
      assert k >= n;
      if n < |t| && t[n] != RETURN {
        assert t[n] in KERNEL_STOPS;
        assert k == n;
      }
    }
  }

  /** Plain topics always agree, with or without a line end after the daemon's
      copy, and keep distinct topics apart. */
  lemma PlainKeysAgree(t: seq<Byte>, rest: seq<Byte>, lineEnd: seq<Byte>)
    requires Plain(t) && (|lineEnd| > 0 ==> lineEnd[0] in DAEMON_STOPS)
    ensures KernelKey(t + [SPACE] + rest) == DaemonKey(t + lineEnd) == Some(Pad(t))
  {
    UntilIs(t + [SPACE] + rest, KERNEL_STOPS, |t|);
    UntilIs(t + lineEnd, DAEMON_STOPS, |t|);
    assert (t + [SPACE] + rest)[..|t|] == t && (t + lineEnd)[..|t|] == t;
  }

  lemma PlainKeysDistinct(t: seq<Byte>, u: seq<Byte>)
    requires Plain(t) && Plain(u)
    ensures Pad(t) == Pad(u) <==> t == u
  {
    PadInjective(t, u);
  }

  /** The shortest disagreement: a 20-byte topic is refused by REGISTER, yet a
      PUBLISH to it is looked up under its first 19 bytes. */
  lemma LongTopicMisrouted(t: seq<Byte>, rest: seq<Byte>)
    requires |t| == KEY_SIZE && forall i :: 0 <= i < |t| ==> t[i] !in KERNEL_STOPS + DAEMON_STOPS
    ensures DaemonKey(t) == None
    ensures KernelKey(t + [SPACE] + rest) == DaemonKey(t[..KEY_SIZE - 1])
  {
    UntilIs(t, DAEMON_STOPS, |t|);
    UntilIs(t[..KEY_SIZE - 1], DAEMON_STOPS, KEY_SIZE - 1);
    UntilIs(t + [SPACE] + rest, KERNEL_STOPS, |t|);
    assert (t + [SPACE] + rest)[..KEY_SIZE - 1] == t[..KEY_SIZE - 1];
    assert t[..KEY_SIZE - 1][..KEY_SIZE - 1] == t[..KEY_SIZE - 1];
  }
}
