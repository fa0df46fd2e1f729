/** The clone broker with every map access a step of its own: the daemon's
    slot write and count write, the publisher's count read, and each clone's
    slot read, in any order. */
module CloneRace {
  import opened Words
  import opened TopicKey
  import opened CloneBroker

  datatype Pc =
    | Idle
    | SlotWritten(packed: U64)         // slot filled, count not yet raised
    | Zeroing(next: nat, total: nat)   // flush has cleared slots below `next`

  /** One PUBLISH: what the count read returned, the history at that moment,
      the flush epochs of the count read and of the latest clone read, and what
      each clone found in its slot. */
  datatype Publication = Publication(n: nat, snapshot: seq<U64>, quiet: bool, began: nat, latest: nat, got: map<nat, U64>)

  datatype S = S(slots: Slots, count: nat, pc: Pc, history: seq<U64>, epoch: nat, pubs: seq<Publication>)

  const INIT := S(ZeroSlots(MAX_SUBSCRIBERS), 0, Idle, [], 0, [])

  datatype Step =
    | WriteSlot(packed: U64)
    | WriteCount
    | BeginFlush
    | ZeroSlot
    | ResetCount
    | ReadCount
    | ReadSlot(pub: nat, copy: nat)

  /** One step; a step that is not enabled changes nothing. */
  function Do(s: S, step: Step): S {
    match step
    case WriteSlot(p) =>
      if s.pc.Idle? && s.count < MAX_SUBSCRIBERS then s.(slots := s.slots[s.count := p], pc := SlotWritten(p)) else s
    case WriteCount =>
      if s.pc.SlotWritten? then s.(count := s.count + 1, history := s.history + [s.pc.packed], pc := Idle) else s
    case BeginFlush =>
      if s.pc.Idle? && s.count > 0 then s.(pc := Zeroing(0, s.count), epoch := s.epoch + 1) else s
    case ZeroSlot =>
      if s.pc.Zeroing? && s.pc.next < s.pc.total && s.pc.next < MAX_SUBSCRIBERS
      then s.(slots := s.slots[s.pc.next := 0], pc := Zeroing(s.pc.next + 1, s.pc.total)) else s
    case ResetCount =>
      if s.pc.Zeroing? && s.pc.next == s.pc.total then s.(count := 0, history := [], pc := Idle) else s
    case ReadCount =>
      if s.count == 0 then s
      else s.(pubs := s.pubs + [Publication(s.count, s.history, !s.pc.Zeroing?, s.epoch, s.epoch, map[])])
    case ReadSlot(i, k) =>
      if i < |s.pubs| && 1 <= k <= s.pubs[i].n && k <= MAX_SUBSCRIBERS && k !in s.pubs[i].got then
        s.(pubs := s.pubs[i := s.pubs[i].(latest := s.epoch, got := s.pubs[i].got[k := s.slots[k - 1]])])
      else s
  }

  function Exec(s: S, steps: seq<Step>): S {
    if steps == [] then s else Do(Exec(s, steps[..|steps| - 1]), steps[|steps| - 1])
  }

  function After(steps: seq<Step>): S {
    Exec(INIT, steps)
  }

  ghost predicate DaemonInv(s: S) {
    && s.count == |s.history| <= MAX_SUBSCRIBERS
    && match s.pc
       case Idle => s.slots == s.history + ZeroSlots(MAX_SUBSCRIBERS - s.count)
       case SlotWritten(p) =>
         s.count < MAX_SUBSCRIBERS && s.slots == s.history + [p] + ZeroSlots(MAX_SUBSCRIBERS - s.count - 1)
       case Zeroing(next, total) =>
         next <= total == s.count && s.slots == ZeroSlots(next) + s.history[next..] + ZeroSlots(MAX_SUBSCRIBERS - s.count)
  }

  /** The first flush that can get between a publication and its slots: the one
      its count read met, or the next to begin. */
  function OwnFlush(p: Publication): nat {
    if p.quiet then p.began + 1 else p.began
  }

  /** Until a publication's own flush is over, its snapshot is a prefix of the
      history. */
  ghost predicate PubInv(s: S, p: Publication) {
    && p.n == |p.snapshot| <= MAX_SUBSCRIBERS
    && p.began <= p.latest <= s.epoch
    && (forall k :: k in p.got ==> 1 <= k <= p.n)
    && (p.quiet && p.began == s.epoch ==> !s.pc.Zeroing? && p.snapshot <= s.history)
    && (s.epoch == OwnFlush(p) && s.pc.Zeroing? ==> p.snapshot <= s.history)
    && (p.quiet && p.began == p.latest ==> forall k :: k in p.got ==> p.got[k] == p.snapshot[k - 1])
  }

  lemma DaemonStep(s: S, step: Step)
    requires DaemonInv(s)
    ensures DaemonInv(Do(s, step))
  {
    match step
    case WriteSlot(p) =>
      if s.pc.Idle? && s.count < MAX_SUBSCRIBERS {
        assert s.slots[s.count := p] == s.history + [p] + ZeroSlots(MAX_SUBSCRIBERS - s.count - 1);
      }
    case BeginFlush =>
      assert ZeroSlots(0) + s.history[0..] == s.history;
    case ZeroSlot =>
      ZeroStep(s);
    case ResetCount =>
      if s.pc.Zeroing? && s.pc.next == s.pc.total {
        assert s.slots == [] + ZeroSlots(MAX_SUBSCRIBERS);
      }
    case _ =>
  }

  lemma ZeroStep(s: S)
    requires DaemonInv(s)
    ensures DaemonInv(Do(s, ZeroSlot))
  {
    if s.pc.Zeroing? && s.pc.next < s.pc.total {
      var n := s.pc.next;
      assert s.slots[n := 0] == ZeroSlots(n + 1) + s.history[n + 1..] + ZeroSlots(MAX_SUBSCRIBERS - s.count);
    }
  }

  lemma PubsStep(s: S, step: Step)
    requires DaemonInv(s) && forall i :: 0 <= i < |s.pubs| ==> PubInv(s, s.pubs[i])
    ensures var t := Do(s, step); forall i :: 0 <= i < |t.pubs| ==> PubInv(t, t.pubs[i])
  {
    var t := Do(s, step);
    forall i | 0 <= i < |t.pubs| ensures PubInv(t, t.pubs[i]) {
      if i < |s.pubs| {
        assert PubInv(s, s.pubs[i]);
      }
    }
  }

  lemma {:induction false} Invariant(steps: seq<Step>)
    ensures DaemonInv(After(steps))
    ensures forall i :: 0 <= i < |After(steps).pubs| ==> PubInv(After(steps), After(steps).pubs[i])
  {
    if steps != [] {
      hide DaemonInv, PubInv, Do;
      var before := steps[..|steps| - 1];
      Invariant(before);
      DaemonStep(After(before), steps[|steps| - 1]);
      PubsStep(After(before), steps[|steps| - 1]);
    } else {
      assert [] + ZeroSlots(MAX_SUBSCRIBERS) == ZeroSlots(MAX_SUBSCRIBERS);
    }
  }

  /** Linearizability of PUBLISH at its count read: whatever SUBSCRIBEs are
      interleaved, every clone read so far found its entry of the history as
      it stood then, so a finished publication delivered exactly that history,
      one clone each.  Flushes are allowed in the run; the promise is for
      publications that no flush of the topic overlaps. */
  lemma PublishLinearizes(steps: seq<Step>, i: nat)
    requires i < |After(steps).pubs|
    ensures var p := After(steps).pubs[i];
            p.n == |p.snapshot| &&
            (p.quiet && p.latest == p.began ==>
              (forall k :: k in p.got ==> 1 <= k <= p.n && p.got[k] == p.snapshot[k - 1]) &&
              ((forall k :: 1 <= k <= p.n ==> k in p.got) ==>
                seq(p.n, j requires 0 <= j < p.n => if j + 1 in p.got then p.got[j + 1] else 0) == p.snapshot))
  {
    Invariant(steps);
    assert PubInv(After(steps), After(steps).pubs[i]);
  }

  lemma Then(steps: seq<Step>, step: Step)
    ensures After(steps + [step]) == Do(After(steps), step)
  {
    assert (steps + [step])[..|steps|] == steps;
  }

  /** What the count read of a publication records: one clone per subscription
      counted at that moment, and nothing else changes. */
  lemma ReadCountRecords(steps: seq<Step>)
    ensures var s, t := After(steps), After(steps + [ReadCount]);
            && (s.count == 0 ==> t == s)
            && (s.count > 0 ==>
                  && t == s.(pubs := t.pubs)
                  && |t.pubs| == |s.pubs| + 1 && t.pubs[..|s.pubs|] == s.pubs
                  && t.pubs[|s.pubs|].n == s.count == |t.pubs[|s.pubs|].snapshot|
                  && t.pubs[|s.pubs|].snapshot == s.history
                  && t.pubs[|s.pubs|].quiet == !s.pc.Zeroing?
                  && t.pubs[|s.pubs|].began == s.epoch && t.pubs[|s.pubs|].got == map[])
  {
    Invariant(steps);
    Then(steps, ReadCount);
    hide After;
  }

  /** Publication number `i`, in step `m`, read this count and saw this history. */
  ghost predicate CountReadAt(steps: seq<Step>, i: nat, m: nat, count: nat, history: seq<U64>) {
    && m < |steps| && steps[m] == ReadCount && i == |After(steps[..m]).pubs|
    && count == After(steps[..m]).count && history == After(steps[..m]).history
  }

  /** Its clone `k`, in step `m`, found this in its slot. */
  ghost predicate SlotReadAt(steps: seq<Step>, i: nat, k: nat, m: nat, found: U64) {
    && m < |steps| && steps[m] == ReadSlot(i, k) && 0 < k <= MAX_SUBSCRIBERS
    && found == After(steps[..m]).slots[k - 1]
  }

  lemma MomentsStay(before: seq<Step>, step: Step)
    ensures forall i, m, n, h :: CountReadAt(before, i, m, n, h) ==> CountReadAt(before + [step], i, m, n, h)
    ensures forall i, k, m, f :: SlotReadAt(before, i, k, m, f) ==> SlotReadAt(before + [step], i, k, m, f)
  {
    hide After;
    forall m | 0 <= m <= |before| ensures before[..m] == (before + [step])[..m] {
    }
  }

  /** A step leaves count and history of a publication alone and adds at most the
      slot it reads. */
  lemma StepRecords(s: S, step: Step, i: nat)
    requires i < |s.pubs|
    ensures var p, q := s.pubs[i], Do(s, step).pubs[i];
            && i < |Do(s, step).pubs| && q.n == p.n && q.snapshot == p.snapshot
            && forall k :: k in q.got ==>
                 (k in p.got && q.got[k] == p.got[k]) ||
                 (step == ReadSlot(i, k) && 0 < k <= MAX_SUBSCRIBERS && q.got[k] == s.slots[k - 1])
  {
  }

  /** Every publication, at any later time, still stands for the history and the
      count the daemon had when it read the count, and every clone holds what its
      slot held when it was read. */
  lemma {:induction false} PublicationIsMoment(steps: seq<Step>, i: nat)
    requires i < |After(steps).pubs|
    ensures exists m :: CountReadAt(steps, i, m, After(steps).pubs[i].n, After(steps).pubs[i].snapshot)
    ensures forall k :: k in After(steps).pubs[i].got ==> exists m :: SlotReadAt(steps, i, k, m, After(steps).pubs[i].got[k])
  {
    assert steps != [];
    var n := |steps| - 1;
    var before, step := steps[..n], steps[n];
    assert steps == before + [step];
    Then(before, step);
    MomentsStay(before, step);
    var s := After(before);
    var p := After(steps).pubs[i];
    if i < |s.pubs| {
      PublicationIsMoment(before, i);
      StepRecords(s, step, i);
      var m :| CountReadAt(before, i, m, s.pubs[i].n, s.pubs[i].snapshot);
      assert CountReadAt(steps, i, m, p.n, p.snapshot);
      forall k | k in p.got ensures exists m :: SlotReadAt(steps, i, k, m, p.got[k]) {
        if k in s.pubs[i].got && p.got[k] == s.pubs[i].got[k] {
          var m :| SlotReadAt(before, i, k, m, s.pubs[i].got[k]);
          assert SlotReadAt(steps, i, k, m, p.got[k]);
        } else {
          assert SlotReadAt(steps, i, k, n, p.got[k]);
        }
      }
    } else {
      assert CountReadAt(steps, i, n, p.n, p.snapshot);
    }
  }

  /** What the daemon's state says slot `k - 1` holds. */
  function Slot(s: S, k: nat): U64
    requires k > 0
  {
    if s.pc.Zeroing? && k <= s.pc.next then 0
    else if k <= |s.history| then s.history[k - 1]
    else if s.pc.SlotWritten? && k == |s.history| + 1 then s.pc.packed
    else 0
  }

  lemma SlotsAre(s: S, k: nat)
    requires DaemonInv(s) && 0 < k <= MAX_SUBSCRIBERS
    ensures s.slots[k - 1] == Slot(s, k)
  {
  }

  /** When clone `k` of a publication gets the subscriber it stands for: before
      its own flush, always; while that flush runs, exactly if the flush has not
      come to the slot yet (or the subscriber is address zero, port zero); after
      it, exactly if the slot has been given to the same subscriber again. */
  predicate ReadsRight(s: S, p: Publication, k: nat)
    requires 0 < k <= |p.snapshot|
  {
    if s.epoch < OwnFlush(p) then true
    else if s.epoch == OwnFlush(p) && s.pc.Zeroing? then k > s.pc.next || p.snapshot[k - 1] == 0
    else Slot(s, k) == p.snapshot[k - 1]
  }

  /** The exact condition, for every clone read of every run. */
  lemma CloneReadIff(steps: seq<Step>, i: nat, k: nat)
    requires i < |After(steps).pubs| && 1 <= k <= After(steps).pubs[i].n && k !in After(steps).pubs[i].got
    ensures var s := After(steps);
            var p := s.pubs[i];
            var t := After(steps + [ReadSlot(i, k)]);
            && p.n == |p.snapshot| && i < |t.pubs| && k in t.pubs[i].got
            && (t.pubs[i].got[k] == p.snapshot[k - 1] <==> ReadsRight(s, p, k))
  {
    Invariant(steps);
    Then(steps, ReadSlot(i, k));
    var s := After(steps);
    assert PubInv(s, s.pubs[i]);
    SlotsAre(s, k);
    hide After;
  }

  /** A clone never reads a slot that was not written: below the count every
      slot holds an accepted subscription whenever no flush is running. */
  lemma SlotsBelowCountAreWritten(steps: seq<Step>, k: nat)
    requires !After(steps).pc.Zeroing? && k < After(steps).count
    ensures After(steps).count == |After(steps).history| <= MAX_SUBSCRIBERS
    ensures After(steps).slots[k] == After(steps).history[k]
  {
    Invariant(steps);
  }

  lemma OneSubscriberPublished(p: U64)
    ensures After([WriteSlot(p), WriteCount, ReadCount])
            == S(ZeroSlots(MAX_SUBSCRIBERS)[0 := p], 1, Idle, [p], 0, [Publication(1, [p], true, 0, 0, map[])])
  {
    var a, b, c := WriteSlot(p), WriteCount, ReadCount;
    assert After([]) == INIT;
    Then([], a);
    Then([a], b);
    Then([a, b], c);
    assert [] + [a] == [a] && [a] + [b] == [a, b] && [a, b] + [c] == [a, b, c];
    hide After, ZeroSlots;
    assert [] + [p] == [p];
  }

  /** With a flush in between the promise fails: the slots are cleared before
      the count, so a clone can be sent to address zero. */
  lemma FlushBreaksPublish(p: U64)
    requires p != 0
    ensures var s := After([WriteSlot(p), WriteCount, ReadCount, BeginFlush, ZeroSlot, ReadSlot(0, 1)]);
            s.pubs == [Publication(1, [p], true, 0, 1, map[1 := 0])]
  {
    var begun := [WriteSlot(p), WriteCount, ReadCount];
    var d, e, f := BeginFlush, ZeroSlot, ReadSlot(0, 1);
    OneSubscriberPublished(p);
    Then(begun, d);
    Then(begun + [d], e);
    Then(begun + [d] + [e], f);
    assert begun + [d] + [e] + [f] == [WriteSlot(p), WriteCount, ReadCount, d, e, f];
    hide After, ZeroSlots;
    assert After(begun + [d]).pc == Zeroing(0, 1);
    assert After(begun + [d] + [e]).slots[0] == 0;
  }

  // -------------------------------------- the steps are the daemon's commands

  /** One topic of the clone broker's maps, between commands. */
  function Project(c: State, k: Key, history: seq<U64>, epoch: nat): S
    requires k in c.arrays
  {
    S(c.arrays[k], CountOf(c, k), Idle, history, epoch, [])
  }

  lemma ExecOne(s: S, steps: seq<Step>, step: Step)
    ensures Exec(s, steps + [step]) == Do(Exec(s, steps), step)
  {
    assert (steps + [step])[..|steps|] == steps;
  }

  /** Uninterrupted, the steps of a SUBSCRIBE are the daemon's `add_subscriber`. */
  lemma SubscribeSteps(c: State, k: Key, p: U64, history: seq<U64>, epoch: nat)
    requires CountsFit(c) && k in c.arrays
    ensures k in AddSubscriber(c, k, p).arrays
    ensures Exec(Project(c, k, history, epoch), [WriteSlot(p), WriteCount])
            == Project(AddSubscriber(c, k, p), k, if CountOf(c, k) < MAX_SUBSCRIBERS then history + [p] else history, epoch)
  {
    var s := Project(c, k, history, epoch);
    ExecOne(s, [], WriteSlot(p));
    ExecOne(s, [WriteSlot(p)], WriteCount);
    assert Exec(s, []) == s;
    assert [] + [WriteSlot(p)] == [WriteSlot(p)] && [WriteSlot(p)] + [WriteCount] == [WriteSlot(p), WriteCount];
    hide Exec;
    RoomForArray(c, k);
  }

  function Zeroes(n: nat): seq<Step> {
    seq(n, _ => ZeroSlot)
  }

  lemma {:induction false} ZeroSteps(s: S, n: nat)
    requires s.pc.Zeroing? && s.pc.next == 0 && n <= s.pc.total && n <= MAX_SUBSCRIBERS
    ensures Exec(s, Zeroes(n)) == s.(slots := ZeroSlots(n) + s.slots[n..], pc := Zeroing(n, s.pc.total))
  {
    if n == 0 {
      assert ZeroSlots(0) + s.slots[0..] == s.slots;
    } else {
      ZeroSteps(s, n - 1);
      assert Zeroes(n)[..n - 1] == Zeroes(n - 1);
      assert (ZeroSlots(n - 1) + s.slots[n - 1..])[n - 1 := 0] == ZeroSlots(n) + s.slots[n..];
    }
  }

  lemma {:induction false} ExecConcat(s: S, a: seq<Step>, b: seq<Step>)
    ensures Exec(s, a + b) == Exec(Exec(s, a), b)
  {
    if b == [] {
      assert a + b == a;
    } else {
      var n := |b| - 1;
      assert (a + b)[..|a + b| - 1] == a + b[..n];
      ExecConcat(s, a, b[..n]);
    }
  }

  lemma FlushOfSome(c: State, k: Key, history: seq<U64>, epoch: nat)
    requires k in c.arrays && 0 < CountOf(c, k) <= MAX_SUBSCRIBERS
    ensures Exec(Project(c, k, history, epoch), [BeginFlush] + Zeroes(CountOf(c, k)) + [ResetCount])
            == Project(FlushTopic(c, k), k, [], epoch + 1)
  {
    var s, n := Project(c, k, history, epoch), CountOf(c, k);
    assert Exec(s, []) == s;
    hide Exec;
    ExecOne(s, [], BeginFlush);
    assert [] + [BeginFlush] == [BeginFlush];
    ExecConcat(s, [BeginFlush], Zeroes(n));
    ZeroSteps(Do(s, BeginFlush), n);
    hide Zeroes, ZeroSlots;
    ExecOne(s, [BeginFlush] + Zeroes(n), ResetCount);
  }

  lemma FlushOfNone(c: State, k: Key, epoch: nat)
    requires k in c.arrays && CountOf(c, k) == 0
    ensures Exec(Project(c, k, [], epoch), [BeginFlush] + Zeroes(0) + [ResetCount]) == Project(c, k, [], epoch)
  {
    hide ZeroSlots, CountOf;
    var s := Project(c, k, [], epoch);
    assert [BeginFlush] + Zeroes(0) == [BeginFlush];
    assert [] + [BeginFlush] == [BeginFlush] && Exec(s, []) == s;
    hide Zeroes;
    ExecOne(s, [], BeginFlush);
    ExecOne(s, [BeginFlush], ResetCount);
    hide Exec;
  }

  /** ... and those of a FLUSH its `flush_topic`; flushing an empty topic is no
      step at all. */
  lemma FlushSteps(c: State, k: Key, history: seq<U64>, epoch: nat)
    requires k in c.arrays && CountOf(c, k) == |history| <= MAX_SUBSCRIBERS
    ensures k in FlushTopic(c, k).arrays
    ensures Exec(Project(c, k, history, epoch), [BeginFlush] + Zeroes(CountOf(c, k)) + [ResetCount])
            == Project(FlushTopic(c, k), k, [], if history == [] then epoch else epoch + 1)
  {
    hide Exec, Zeroes, ZeroSlots;
    if history == [] {
      FlushOfNone(c, k, epoch);
    } else {
      FlushOfSome(c, k, history, epoch);
    }
  }

  function Reads(n: nat): seq<Step> {
    seq(n, j requires 0 <= j < n => ReadSlot(0, j + 1))
  }

  /** The first `n` slots as the clones record them. */
  function Served(slots: Slots, n: nat): (r: map<nat, U64>)
    requires n <= MAX_SUBSCRIBERS
    ensures forall k :: k in r <==> 1 <= k <= n
    ensures forall k :: k in r ==> r[k] == slots[k - 1]
  {
    if n == 0 then map[] else Served(slots, n - 1)[n := slots[n - 1]]
  }

  lemma {:induction false} ReadSteps(s: S, n: nat)
    requires |s.pubs| == 1 && n <= s.pubs[0].n <= MAX_SUBSCRIBERS && s.pubs[0].got == map[] && s.pubs[0].latest == s.epoch
    ensures Exec(s, Reads(n)) == s.(pubs := [s.pubs[0].(got := Served(s.slots, n))])
  {
    if n == 0 {
      assert s.pubs == [s.pubs[0]];
    } else {
      ReadSteps(s, n - 1);
      assert Reads(n)[..n - 1] == Reads(n - 1);
    }
  }

  /** ... and those of a publication are the kernel program's: as many clones as
      the count it asks for, clone `j` with the subscriber in slot `j - 1`. */
  lemma PublishSteps(c: State, k: Key, history: seq<U64>, epoch: nat)
    requires k in c.arrays && Holds(c, k, history) && history != []
    ensures var s := Exec(Project(c, k, history, epoch), [ReadCount] + Reads(CountOf(c, k)));
            && |s.pubs| == 1 && s.pubs[0].n == CountOf(c, k) && s.pubs[0].snapshot == history
            && (forall j :: j in s.pubs[0].got <==> 1 <= j <= CountOf(c, k))
            && (forall j :: 1 <= j <= CountOf(c, k) ==> s.pubs[0].got[j] == c.arrays[k][j - 1] == history[j - 1])
  {
    var s := Project(c, k, history, epoch);
    assert Exec(s, []) == s;
    ExecOne(s, [], ReadCount);
    assert [] + [ReadCount] == [ReadCount];
    ExecConcat(s, [ReadCount], Reads(CountOf(c, k)));
    ReadSteps(Do(s, ReadCount), CountOf(c, k));
    hide Exec, Reads;
  }
}
