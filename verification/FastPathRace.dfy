/** The XDP+TC broker against a daemon that is in the middle of a command: one
    topic's maps, the daemon's individual map writes, and any number of
    publications, each a count read by `xdp_broker` followed, later, by its
    read of the first subscriber or by the fan-out's read of the inner map. */
module FastPathRace {
  import opened Enumeration
  import opened Words
  import opened TopicKey
  import opened PacketOps
  import opened Maps
  import opened Kernel
  import opened Daemon

  /** Where the daemon is between two of its map writes. */
  datatype Pc =
    | Idle
    | Inserted(packed: U64)          // subscriber in the inner map, count not yet written
    | Counted(packed: U64)           // count written as 1, first subscriber not yet stored
    | Flushing(before: set<U64>)     // deleting members of what was the set
    | Zeroed(before: set<U64>)       // count reset, first subscriber not yet deleted

  datatype Stage =
    | Waiting                        // count 1 read, first subscriber to be read
    | Passed                         // any other count read, inner map to be iterated
    | Walking(seen: set<U64>, due: set<U64>)
    | Sent(to: U64)
    | Dropped
    | Fanned(all: set<U64>)

  /** The history between two flushes as a publication lives through it:
      `origin` subscriptions were there when it began to look. */
  datatype Life = Life(origin: nat, trail: seq<U64>)

  /** A publication. `views` collects the subscriber sets in force since its
      count read, `lives` the histories it has seen, one more after every flush,
      and `touched` the subscribers some SUBSCRIBE was inserting meanwhile.
      `done` is the set of those whose SUBSCRIBE was complete at the start. It is
      calm while no flush has overlapped it. */
  datatype Reader = Reader(stage: Stage, views: set<set<U64>>, lives: seq<Life>,
                           touched: set<U64>, done: set<U64>, calm: bool)

  predicate Open(r: Reader) {
    r.stage.Waiting? || r.stage.Passed? || r.stage.Walking?
  }

  /** `accepted` are the subscriptions since the last flush, as of the count
      writes: a SUBSCRIBE or FLUSH takes effect when the count changes. */
  datatype S = S(subs: set<U64>, count: Option<U32>, first: Option<U64>, pc: Pc,
                 accepted: seq<U64>, readers: seq<Reader>)

  const INIT := S({}, None, None, Idle, [], [])

  datatype Step =
    | InsertSubscriber(packed: U64)
    | WriteCount
    | WriteFirst
    | BeginFlush
    | DeleteSubscriber(packed: U64)
    | ZeroCount
    | DeleteFirst
    | ReadCount
    | ReadFirst(reader: nat)
    | BeginWalk(reader: nat)
    | Visit(reader: nat, packed: U64)
    | EndWalk(reader: nat)

  /** A SUBSCRIBE of `p` is counted. */
  function Grown(r: Reader, p: U64): Reader {
    if !Open(r) || r.lives == [] then r
    else
      var n := |r.lives| - 1;
      var l := Life(r.lives[n].origin, r.lives[n].trail + [p]);
      r.(views := r.views + {Members(l.trail)}, lives := r.lives[n := l])
  }

  /** A flush resets the count. */
  function Emptied(r: Reader): Reader {
    if Open(r) then r.(views := r.views + {{}}, lives := r.lives + [Life(0, [])]) else r
  }

  function Touched(r: Reader, p: U64): Reader {
    if Open(r) then r.(touched := r.touched + {p}) else r
  }

  function Disturbed(r: Reader): Reader {
    if Open(r) then r.(calm := false) else r
  }

  /** A subscriber deleted during an iteration need not be visited. */
  function Spared(r: Reader, p: U64): Reader {
    if r.stage.Walking? then r.(stage := r.stage.(due := r.stage.due - {p})) else r
  }

  function Each(readers: seq<Reader>, f: Reader -> Reader): (r: seq<Reader>)
    ensures |r| == |readers| && forall i :: 0 <= i < |r| ==> r[i] == f(readers[i])
  {
    seq(|readers|, i requires 0 <= i < |readers| => f(readers[i]))
  }

  predicate FlushRuns(s: S) {
    s.pc.Flushing? || s.pc.Zeroed?
  }

  function Completed(s: S): set<U64> {
    if s.pc.Counted? then {} else Members(s.accepted)
  }

  /** A publication that has just read the count. */
  function Fresh(s: S): Reader {
    Reader(if s.count == Some(1) then Waiting else Passed, {Members(s.accepted)}, [Life(|s.accepted|, s.accepted)],
           if s.pc.Inserted? then {s.pc.packed} else {}, Completed(s), !FlushRuns(s))
  }

  function Advance(s: S, i: nat, stage: Stage): S
    requires i < |s.readers|
  {
    s.(readers := s.readers[i := s.readers[i].(stage := stage)])
  }

  /** One step; a step that is not enabled changes nothing. An iteration visits
      each key at most once, whenever it is in the map, and does not end before
      it has visited every key that was there all the time. */
  function Do(s: S, step: Step): S {
    match step
    case InsertSubscriber(p) =>
      if s.pc.Idle? && (p in s.subs || |s.subs| < INNER_ENTRIES)
      then s.(subs := s.subs + {p}, pc := Inserted(p), readers := Each(s.readers, r => Touched(r, p))) else s
    case WriteCount =>
      if !s.pc.Inserted? then s
      else
        var current: U32 := if s.count.Some? then Add32(s.count.value, 1) else 1;
        s.(accepted := s.accepted + [s.pc.packed], count := Some(current),
           pc := if current == 1 then Counted(s.pc.packed) else Idle,
           readers := Each(s.readers, r => Grown(r, s.pc.packed)))
    case WriteFirst =>
      if s.pc.Counted? then s.(first := Some(s.pc.packed), pc := Idle) else s
    case BeginFlush =>
      if s.pc.Idle? then s.(pc := Flushing(s.subs), readers := Each(s.readers, r => Disturbed(r))) else s
    case DeleteSubscriber(p) =>
      if s.pc.Flushing? then s.(subs := s.subs - {p}, readers := Each(s.readers, r => Spared(r, p))) else s
    case ZeroCount =>
      if s.pc.Flushing? && s.subs == {}
      then s.(accepted := [], count := Some(0), pc := Zeroed(s.pc.before), readers := Each(s.readers, Emptied)) else s
    case DeleteFirst =>
      if s.pc.Zeroed? then s.(first := None, pc := Idle) else s
    case ReadCount => s.(readers := s.readers + [Fresh(s)])
    case ReadFirst(i) =>
      if i < |s.readers| && s.readers[i].stage.Waiting?
      then Advance(s, i, if s.first.Some? then Sent(s.first.value) else Dropped) else s
    case BeginWalk(i) =>
      if i < |s.readers| && s.readers[i].stage.Passed? then Advance(s, i, Walking({}, s.subs)) else s
    case Visit(i, p) =>
      if i < |s.readers| && s.readers[i].stage.Walking? && p in s.subs - s.readers[i].stage.seen
      then Advance(s, i, Walking(s.readers[i].stage.seen + {p}, s.readers[i].stage.due)) else s
    case EndWalk(i) =>
      if i < |s.readers| && s.readers[i].stage.Walking? && s.readers[i].stage.due <= s.readers[i].stage.seen
      then Advance(s, i, Fanned(s.readers[i].stage.seen)) else s
  }

  function Exec(s: S, steps: seq<Step>): S {
    if steps == [] then s else Do(Exec(s, steps[..|steps| - 1]), steps[|steps| - 1])
  }

  function After(steps: seq<Step>): S {
    Exec(INIT, steps)
  }

  /** The u32 count never wraps along the run. */
  ghost predicate NeverWraps(steps: seq<Step>) {
    forall n :: 0 <= n <= |steps| ==> |After(steps[..n]).accepted| < 0x1_0000_0000
  }

  ghost predicate DaemonInv(s: S) {
    && (s.count.None? ==> s.accepted == [])
    && (s.count.Some? ==> s.count.value == |s.accepted|)
    && (match s.pc
        case Idle => s.subs == Members(s.accepted)
        case Inserted(p) => s.subs == Members(s.accepted) + {p}
        case Counted(p) => s.subs == Members(s.accepted) && s.accepted == [p] && s.first == None
        case Flushing(before) => s.subs <= before == Members(s.accepted)
        case Zeroed(before) => s.subs == {} && s.accepted == [])
    && (match s.first
        case None => s.accepted == [] || s.pc.Counted?
        case Some(a) =>
          if s.pc.Zeroed? then a in s.pc.before
          else s.accepted != [] && s.accepted[0] == a)
  }

  /** The sets in force during one history are those of its prefixes. */
  ghost predicate InLife(v: set<U64>, l: Life) {
    exists j :: l.origin <= j <= |l.trail| && v == Members(l.trail[..j])
  }

  ghost predicate ViewsAre(views: set<set<U64>>, lives: seq<Life>) {
    && (forall e :: 0 <= e < |lives| ==> lives[e].origin <= |lives[e].trail|)
    && (forall v :: v in views <==> exists e :: 0 <= e < |lives| && InLife(v, lives[e]))
  }

  /** In a set in force since the count read, or being inserted. */
  ghost predicate Known(r: Reader, a: U64) {
    a in r.touched || exists v :: v in r.views && a in v
  }

  ghost predicate OpenInv(s: S, r: Reader) {
    && r.lives != [] && r.lives[|r.lives| - 1].trail == s.accepted
    && Members(s.accepted) in r.views && ViewsAre(r.views, r.lives)
    && (s.pc.Inserted? ==> s.pc.packed in r.touched)
    && (r.calm ==> !FlushRuns(s) && |r.lives| == 1 && r.done <= Members(Start(r)))
  }

  /** The history as it was at the count read. */
  function Start(r: Reader): seq<U64> {
    if r.lives == [] || r.lives[0].origin > |r.lives[0].trail| then [] else r.lives[0].trail[..r.lives[0].origin]
  }

  /** What a publication between its reads may rely on, and what it has done
      after them. */
  ghost predicate ReaderInv(s: S, r: Reader) {
    match r.stage
    case Waiting =>
      && OpenInv(s, r) && (s.first.Some? ==> {s.first.value} in r.views)
      && (r.calm ==> r.lives[0].origin == 1 && s.accepted != [] && (s.first.None? ==> r.done == {}))
      && (!r.calm ==> {} in r.views || (s.pc.Flushing? && s.accepted != []))
    case Passed => OpenInv(s, r)
    case Walking(seen, due) =>
      && OpenInv(s, r) && (forall a :: a in seen ==> Known(r, a))
      && (r.calm ==> Members(Start(r)) <= due)
    case Sent(a) => {a} in r.views && (r.calm ==> r.done <= {a})
    case Dropped => (r.calm ==> r.done == {}) && ({} in r.views <==> !r.calm)
    case Fanned(all) =>
      && ViewsAre(r.views, r.lives) && (forall a :: a in all ==> Known(r, a))
      && (r.calm ==> |r.lives| == 1 && r.done <= Members(Start(r)) <= all)
  }

  lemma DaemonStep(s: S, step: Step)
    requires DaemonInv(s) && |Do(s, step).accepted| < 0x1_0000_0000
    ensures DaemonInv(Do(s, step))
  {
    assert Members<U64>([]) == {};
    hide Each, Completed, Members;
    match step
    case WriteCount =>
      if s.pc.Inserted? {
        MembersSnoc(s.accepted, s.pc.packed);
      }
    case _ =>
      hide Add32;
  }

  lemma Singleton(p: U64)
    ensures Members([p]) == {p}
  {
  }

  lemma NothingKnown()
    ensures Members<U64>([]) == {}
  {
  }

  lemma MembersOfPrefix(h: seq<U64>, i: nat, j: nat)
    requires i <= j <= |h|
    ensures Members(h[..i]) <= Members(h[..j])
  {
    forall a | a in Members(h[..i]) ensures a in Members(h[..j]) {
      var k :| 0 <= k < i && h[..i][k] == a;
      assert h[..j][k] == a;
    }
  }

  lemma InPrefix(h: seq<U64>, i: nat, j: nat)
    requires i < j <= |h|
    ensures h[i] in Members(h[..j])
  {
    assert h[..j][i] == h[i];
  }

  lemma NoEmptyView(views: set<set<U64>>, l: Life)
    requires ViewsAre(views, [l]) && l.origin > 0
    ensures {} !in views
  {
    assert [l][0] == l;
    forall j | l.origin <= j <= |l.trail| ensures Members(l.trail[..j]) != {} {
      InPrefix(l.trail, 0, j);
    }
  }

  lemma LifeGrows(v: set<U64>, l: Life, p: U64)
    requires l.origin <= |l.trail|
    ensures InLife(v, Life(l.origin, l.trail + [p])) <==> InLife(v, l) || v == Members(l.trail + [p])
  {
    hide Members;
    var t := l.trail + [p];
    assert t[..|t|] == t;
    if InLife(v, Life(l.origin, t)) {
      var j :| l.origin <= j <= |t| && v == Members(t[..j]);
      assert j <= |l.trail| ==> t[..j] == l.trail[..j];
    }
    if InLife(v, l) {
      var j :| l.origin <= j <= |l.trail| && v == Members(l.trail[..j]);
      assert t[..j] == l.trail[..j];
    }
  }

  lemma ViewsGrow(views: set<set<U64>>, lives: seq<Life>, p: U64)
    requires ViewsAre(views, lives) && lives != []
    ensures var l := lives[|lives| - 1];
            ViewsAre(views + {Members(l.trail + [p])}, lives[|lives| - 1 := Life(l.origin, l.trail + [p])])
  {
    hide Members, InLife;
    var n := |lives| - 1;
    var l := lives[n];
    var lives', w := lives[n := Life(l.origin, l.trail + [p])], views + {Members(l.trail + [p])};
    forall v ensures v in w <==> exists e :: 0 <= e < |lives'| && InLife(v, lives'[e]) {
      LifeGrows(v, l, p);
      if v in views {
        var e :| 0 <= e < |lives| && InLife(v, lives[e]);
        assert InLife(v, lives'[e]);
      } else if v in w {
        assert InLife(v, lives'[n]);
      }
      if e :| 0 <= e < |lives'| && InLife(v, lives'[e]) {
        assert e != n ==> lives'[e] == lives[e];
      }
    }
  }

  lemma ViewsEmptied(views: set<set<U64>>, lives: seq<Life>)
    requires ViewsAre(views, lives)
    ensures ViewsAre(views + {{}}, lives + [Life(0, [])])
  {
    var life := Life(0, []);
    assert Members<U64>([]) == {};
    assert forall v :: InLife(v, life) <==> v == {} by {
      assert life.trail[..0] == [];
    }
    hide Members, InLife;
    var lives', w := lives + [life], views + {{}};
    forall v ensures v in w <==> exists e :: 0 <= e < |lives'| && InLife(v, lives'[e]) {
      if v in views {
        var e :| 0 <= e < |lives| && InLife(v, lives[e]);
        assert InLife(v, lives'[e]);
      } else if v in w {
        assert InLife(v, lives'[|lives|]);
      }
      if e :| 0 <= e < |lives'| && InLife(v, lives'[e]) {
        assert e < |lives| ==> lives'[e] == lives[e];
      }
    }
  }

  lemma KnownStays(r: Reader, q: Reader)
    requires r.views <= q.views && r.touched <= q.touched
    ensures forall a :: Known(r, a) ==> Known(q, a)
  {
  }

  lemma InForceIsKnown(s: S, r: Reader, a: U64)
    requires DaemonInv(s) && OpenInv(s, r) && a in s.subs
    ensures Known(r, a)
  {
  }

  /** An open publication through the count write of a SUBSCRIBE. */
  lemma AcceptedStep(s: S, r: Reader)
    requires DaemonInv(s) && ReaderInv(s, r) && s.pc.Inserted? && Open(r)
    ensures ReaderInv(Do(s, WriteCount), Grown(r, s.pc.packed))
  {
    hide Members, Each, InLife;
    var q := Grown(r, s.pc.packed);
    var l := r.lives[|r.lives| - 1];
    KnownStays(r, q);
    MembersSnoc(s.accepted, s.pc.packed);
    ViewsGrow(r.views, r.lives, s.pc.packed);
    assert l.origin <= |l.trail| && |r.lives| == 1 ==> (l.trail + [s.pc.packed])[..l.origin] == l.trail[..l.origin];
    assert r.calm ==> Start(q) == Start(r);
    hide Known, ViewsAre;
  }

  lemma FirstStored(s: S, r: Reader)
    requires DaemonInv(s) && ReaderInv(s, r) && s.pc.Counted? && r.stage.Waiting?
    ensures ReaderInv(Do(s, WriteFirst), r)
  {
    Singleton(s.pc.packed);
    hide ViewsAre, Known;
  }

  lemma FirstRead(s: S, r: Reader)
    requires DaemonInv(s) && ReaderInv(s, r) && r.stage.Waiting?
    ensures s.first.Some? ==> {s.first.value} in r.views && (r.calm ==> r.done <= {s.first.value})
    ensures s.first.None? ==> (r.calm ==> r.done == {}) && ({} in r.views <==> !r.calm)
  {
    if r.calm {
      OnlyFirst(s.accepted);
      assert r.lives == [r.lives[0]];
      NoEmptyView(r.views, r.lives[0]);
    }
  }

  lemma OnlyFirst(h: seq<U64>)
    requires h != []
    ensures Members(h[..1]) == {h[0]}
  {
    assert h[..1] == [h[0]];
  }

  lemma WalkBegins(s: S, r: Reader)
    requires DaemonInv(s) && OpenInv(s, r) && r.calm
    ensures Members(Start(r)) <= s.subs
  {
    var l := r.lives[0];
    MembersOfPrefix(l.trail, l.origin, |l.trail|);
    assert l.trail[..|l.trail|] == l.trail;
    hide Members;
  }

  // One publication through each kind of step.

  lemma AtInsert(s: S, i: nat, p: U64)
    requires DaemonInv(s) && i < |s.readers| && ReaderInv(s, s.readers[i])
    ensures i < |Do(s, InsertSubscriber(p)).readers| && ReaderInv(Do(s, InsertSubscriber(p)), Do(s, InsertSubscriber(p)).readers[i])
  {
    hide Members, ViewsAre, Completed, Each;
    var r := s.readers[i];
    KnownStays(r, Touched(r, p));
    hide Known;
  }

  lemma AtWriteCount(s: S, i: nat)
    requires DaemonInv(s) && i < |s.readers| && ReaderInv(s, s.readers[i])
    ensures i < |Do(s, WriteCount).readers| && ReaderInv(Do(s, WriteCount), Do(s, WriteCount).readers[i])
  {
    hide Members, ViewsAre, Completed, Each, Known;
    var r := s.readers[i];
    if s.pc.Inserted? && Open(r) {
      AcceptedStep(s, r);
      hide ReaderInv, DaemonInv;
    }
  }

  lemma AtWriteFirst(s: S, i: nat)
    requires DaemonInv(s) && i < |s.readers| && ReaderInv(s, s.readers[i])
    ensures i < |Do(s, WriteFirst).readers| && ReaderInv(Do(s, WriteFirst), Do(s, WriteFirst).readers[i])
  {
    hide Members, ViewsAre, Completed, Each, Known;
    if s.pc.Counted? && s.readers[i].stage.Waiting? {
      FirstStored(s, s.readers[i]);
    }
  }

  lemma AtFlush(s: S, i: nat)
    requires DaemonInv(s) && i < |s.readers| && ReaderInv(s, s.readers[i])
    ensures i < |Do(s, BeginFlush).readers| && ReaderInv(Do(s, BeginFlush), Do(s, BeginFlush).readers[i])
  {
    var r := s.readers[i];
    assert r.stage.Waiting? && r.calm ==> s.accepted != [];
    hide Members, ViewsAre, Completed, Each;
    KnownStays(r, Disturbed(r));
    hide Known;
  }

  lemma AtDelete(s: S, i: nat, p: U64)
    requires DaemonInv(s) && i < |s.readers| && ReaderInv(s, s.readers[i])
    ensures i < |Do(s, DeleteSubscriber(p)).readers| && ReaderInv(Do(s, DeleteSubscriber(p)), Do(s, DeleteSubscriber(p)).readers[i])
  {
    hide Members, ViewsAre, Completed, Each;
    var r := s.readers[i];
    KnownStays(r, Spared(r, p));
    hide Known;
  }

  lemma AtZero(s: S, i: nat)
    requires DaemonInv(s) && i < |s.readers| && ReaderInv(s, s.readers[i])
    ensures i < |Do(s, ZeroCount).readers| && ReaderInv(Do(s, ZeroCount), Do(s, ZeroCount).readers[i])
  {
    NothingKnown();
    hide Members, ViewsAre, Completed, Each;
    var r := s.readers[i];
    KnownStays(r, Emptied(r));
    if Open(r) {
      ViewsEmptied(r.views, r.lives);
    }
    hide Known;
  }

  lemma AtDeleteFirst(s: S, i: nat)
    requires DaemonInv(s) && i < |s.readers| && ReaderInv(s, s.readers[i])
    ensures i < |Do(s, DeleteFirst).readers| && ReaderInv(Do(s, DeleteFirst), Do(s, DeleteFirst).readers[i])
  {
    hide Members, ViewsAre, Completed, Each, Known;
  }

  lemma AtReadCount(s: S, i: nat)
    requires DaemonInv(s) && i < |s.readers| && ReaderInv(s, s.readers[i])
    ensures i < |Do(s, ReadCount).readers| && ReaderInv(Do(s, ReadCount), Do(s, ReadCount).readers[i])
  {
    hide Members, ViewsAre, Completed, Each, Known, Fresh;
  }

  lemma AtReadFirst(s: S, i: nat, j: nat)
    requires DaemonInv(s) && i < |s.readers| && ReaderInv(s, s.readers[i])
    ensures i < |Do(s, ReadFirst(j)).readers| && ReaderInv(Do(s, ReadFirst(j)), Do(s, ReadFirst(j)).readers[i])
  {
    hide Members, ViewsAre, Completed, Each, Known;
    if j == i && s.readers[i].stage.Waiting? {
      FirstRead(s, s.readers[i]);
    }
  }

  lemma AtBeginWalk(s: S, i: nat, j: nat)
    requires DaemonInv(s) && i < |s.readers| && ReaderInv(s, s.readers[i])
    ensures i < |Do(s, BeginWalk(j)).readers| && ReaderInv(Do(s, BeginWalk(j)), Do(s, BeginWalk(j)).readers[i])
  {
    hide Members, ViewsAre, Completed, Each, Known;
    var r := s.readers[i];
    if j == i && r.stage.Passed? && r.calm {
      WalkBegins(s, r);
    }
  }

  lemma AtVisit(s: S, i: nat, j: nat, p: U64)
    requires DaemonInv(s) && i < |s.readers| && ReaderInv(s, s.readers[i])
    ensures i < |Do(s, Visit(j, p)).readers| && ReaderInv(Do(s, Visit(j, p)), Do(s, Visit(j, p)).readers[i])
  {
    hide Members, ViewsAre, Completed, Each;
    var r := s.readers[i];
    if j == i && r.stage.Walking? && p in s.subs {
      InForceIsKnown(s, r, p);
      KnownStays(r, Do(s, Visit(j, p)).readers[i]);
    }
    hide Known;
  }

  lemma AtEndWalk(s: S, i: nat, j: nat)
    requires DaemonInv(s) && i < |s.readers| && ReaderInv(s, s.readers[i])
    ensures i < |Do(s, EndWalk(j)).readers| && ReaderInv(Do(s, EndWalk(j)), Do(s, EndWalk(j)).readers[i])
  {
    hide Members, ViewsAre, Completed, Each;
    var r := s.readers[i];
    KnownStays(r, Do(s, EndWalk(j)).readers[i]);
    hide Known;
  }

  lemma ReaderStep(s: S, step: Step, i: nat)
    requires DaemonInv(s) && i < |s.readers| && ReaderInv(s, s.readers[i])
    ensures i < |Do(s, step).readers| && ReaderInv(Do(s, step), Do(s, step).readers[i])
  {
    hide DaemonInv, ReaderInv, Do;
    match step
    case InsertSubscriber(p) => AtInsert(s, i, p);
    case WriteCount => AtWriteCount(s, i);
    case WriteFirst => AtWriteFirst(s, i);
    case BeginFlush => AtFlush(s, i);
    case DeleteSubscriber(p) => AtDelete(s, i, p);
    case ZeroCount => AtZero(s, i);
    case DeleteFirst => AtDeleteFirst(s, i);
    case ReadCount => AtReadCount(s, i);
    case ReadFirst(j) => AtReadFirst(s, i, j);
    case BeginWalk(j) => AtBeginWalk(s, i, j);
    case Visit(j, p) => AtVisit(s, i, j, p);
    case EndWalk(j) => AtEndWalk(s, i, j);
  }

  lemma FreshViews(h: seq<U64>)
    ensures ViewsAre({Members(h)}, [Life(|h|, h)])
  {
    var l := Life(|h|, h);
    assert h[..|h|] == h && [l][0] == l;
    forall v ensures InLife(v, l) <==> v == Members(h) {
    }
  }

  lemma NewReader(s: S)
    requires DaemonInv(s) && |s.accepted| < 0x1_0000_0000
    ensures ReaderInv(Do(s, ReadCount), Fresh(s))
  {
    var h := s.accepted;
    assert h[..|h|] == h;
    FreshViews(h);
    hide ViewsAre, Known;
    if h != [] {
      OnlyFirst(h);
    }
  }

  lemma ReadersStep(s: S, step: Step)
    requires DaemonInv(s) && forall i :: 0 <= i < |s.readers| ==> ReaderInv(s, s.readers[i])
    requires |s.accepted| < 0x1_0000_0000
    ensures var t := Do(s, step); forall i :: 0 <= i < |t.readers| ==> ReaderInv(t, t.readers[i])
  {
    var t := Do(s, step);
    assert step.ReadCount? || |t.readers| == |s.readers|;
    hide ReaderInv, DaemonInv;
    forall i | 0 <= i < |t.readers| ensures ReaderInv(t, t.readers[i]) {
      if i < |s.readers| {
        ReaderStep(s, step, i);
      } else {
        NewReader(s);
      }
    }
  }

  lemma {:induction false} Invariant(steps: seq<Step>)
    requires NeverWraps(steps)
    ensures DaemonInv(After(steps))
    ensures forall i :: 0 <= i < |After(steps).readers| ==> ReaderInv(After(steps), After(steps).readers[i])
  {
    if steps != [] {
      hide DaemonInv, ReaderInv, Do;
      var before, step := steps[..|steps| - 1], steps[|steps| - 1];
      forall n | 0 <= n <= |before| ensures |After(before[..n]).accepted| < 0x1_0000_0000 {
        assert before[..n] == steps[..n];
      }
      Invariant(before);
      assert steps[..|steps|] == steps && before[..|before|] == before;
      DaemonStep(After(before), step);
      ReadersStep(After(before), step);
    }
  }

  /** Safety at the second read: the address about to be used is in the
      topic's subscriber set, or a flush that began with it is in progress. */
  lemma SendsToSubscriber(steps: seq<Step>, i: nat)
    requires NeverWraps(steps)
    requires i < |After(steps).readers| && After(steps).readers[i].stage.Waiting? && After(steps).first.Some?
    ensures var s := After(steps);
            var a := s.first.value;
            a in s.subs || (FlushRuns(s) && a in s.pc.before)
  {
    Invariant(steps);
    var s := After(steps);
    if !s.pc.Zeroed? {
      assert s.accepted[0] in Members(s.accepted);
    }
  }

  /** Linearizability of the fast path: a publish sent to `a` alone is the
      publish a sequential broker would have sent at some moment between the
      two reads, when `a` was the topic's one subscriber. */
  lemma SendLinearizes(steps: seq<Step>, i: nat)
    requires NeverWraps(steps) && i < |After(steps).readers| && After(steps).readers[i].stage.Sent?
    ensures {After(steps).readers[i].stage.to} in After(steps).readers[i].views
  {
    Invariant(steps);
  }

  /** A drop linearizes too, as a publish to an empty set, exactly if a flush
      overlapped the publication; calm ones are dropped only between the
      daemon's write of the count and of the first subscriber. */
  lemma DropLinearizesIff(steps: seq<Step>, i: nat)
    requires NeverWraps(steps)
    requires i < |After(steps).readers| && After(steps).readers[i].stage.Waiting? && After(steps).first.None?
    ensures {} in After(steps).readers[i].views <==> !After(steps).readers[i].calm
    ensures After(steps).readers[i].calm ==> After(steps).pc.Counted?
  {
    Invariant(steps);
    FirstRead(After(steps), After(steps).readers[i]);
  }

  /** The addresses a finished publication reached. */
  function Reached(stage: Stage): set<U64> {
    match stage
    case Sent(a) => {a}
    case Fanned(all) => all
    case _ => {}
  }

  /** What both paths together guarantee: a publication no flush overlaps
      reaches every subscriber whose SUBSCRIBE was complete when it began; and
      whoever any fan-out reaches was in a set in force meanwhile or was being
      inserted. */
  lemma CompletedAreReached(steps: seq<Step>, i: nat)
    requires NeverWraps(steps) && i < |After(steps).readers| && !Open(After(steps).readers[i])
    ensures var r := After(steps).readers[i];
            && (r.calm ==> r.done <= Reached(r.stage))
            && (forall a :: a in Reached(r.stage) ==> Known(r, a))
  {
    Invariant(steps);
    assert ReaderInv(After(steps), After(steps).readers[i]);
  }

  /** Nobody was reached before being accepted, or while someone accepted
      earlier was missed. */
  ghost predicate InOrder(all: set<U64>, trail: seq<U64>) {
    && all <= Members(trail)
    && forall i :: 0 <= i < |trail| && trail[i] !in all ==> all <= Members(trail[..i])
  }

  lemma FirstMissing(all: set<U64>, trail: seq<U64>) returns (i: nat)
    ensures i <= |trail| && Members(trail[..i]) <= all && (i < |trail| ==> trail[i] !in all)
  {
    i := 0;
    while i < |trail| && trail[i] in all
      invariant i <= |trail| && forall k :: 0 <= k < i ==> trail[k] in all
    {
      i := i + 1;
    }
  }

  /** What a set has to be to fit one history: whoever was there at its origin
      reached, and the others in order. */
  ghost predicate Fits(all: set<U64>, l: Life) {
    l.origin <= |l.trail| && Members(l.trail[..l.origin]) <= all && InOrder(all, l.trail)
  }

  lemma FitsIff(all: set<U64>, l: Life)
    requires l.origin <= |l.trail|
    ensures InLife(all, l) <==> Fits(all, l)
  {
    hide InLife, Fits;
    if InLife(all, l) {
      InLifeFits(all, l);
    }
    if Fits(all, l) {
      FitsInLife(all, l);
    }
  }

  lemma FitsInLife(all: set<U64>, l: Life)
    requires Fits(all, l)
    ensures InLife(all, l)
  {
    var trail := l.trail;
    assert trail[..|trail|] == trail;
    forall k | 0 <= k < l.origin ensures trail[k] in all {
      InPrefix(trail, k, l.origin);
    }
    var i := FirstMissing(all, trail);
    assert all == Members(trail[..i]);
  }

  lemma InLifeFits(all: set<U64>, l: Life)
    requires l.origin <= |l.trail| && InLife(all, l)
    ensures Fits(all, l)
  {
    var trail := l.trail;
    assert trail[..|trail|] == trail;
    var j :| l.origin <= j <= |trail| && all == Members(trail[..j]);
    MembersOfPrefix(trail, j, |trail|);
    MembersOfPrefix(trail, l.origin, j);
    forall i | 0 <= i < j ensures trail[i] in all {
      InPrefix(trail, i, j);
    }
    forall i | j <= i < |trail| ensures all <= Members(trail[..i]) {
      MembersOfPrefix(trail, j, i);
    }
  }

  /** When a publication linearizes, that is, reaches a set that was in force at
      some moment since its count read: sent by the fast path, always; dropped,
      exactly if a flush overlapped it; fanned out, exactly if what it reached
      fits one of the histories it has lived through, which for a calm one comes
      down to having reached its subscribers in order. */
  lemma LinearizesIff(steps: seq<Step>, i: nat)
    requires NeverWraps(steps) && i < |After(steps).readers|
    ensures var r := After(steps).readers[i];
            && (r.stage.Sent? ==> Reached(r.stage) in r.views)
            && (r.stage.Dropped? ==> (Reached(r.stage) in r.views <==> !r.calm))
            && (r.stage.Fanned? ==> (Reached(r.stage) in r.views <==>
                  exists e :: 0 <= e < |r.lives| && Fits(r.stage.all, r.lives[e])))
            && (r.stage.Fanned? && r.calm ==> |r.lives| == 1 && (Reached(r.stage) in r.views <==> InOrder(r.stage.all, r.lives[0].trail)))
  {
    Invariant(steps);
    var r := After(steps).readers[i];
    assert ReaderInv(After(steps), r);
    if r.stage.Fanned? {
      FannedIff(r);
    }
  }

  lemma FannedIff(r: Reader)
    requires r.stage.Fanned? && ViewsAre(r.views, r.lives) && (r.calm ==> |r.lives| == 1 && Members(Start(r)) <= r.stage.all)
    ensures r.stage.all in r.views <==> exists e :: 0 <= e < |r.lives| && Fits(r.stage.all, r.lives[e])
    ensures r.calm ==> (r.stage.all in r.views <==> InOrder(r.stage.all, r.lives[0].trail))
  {
    hide InLife, InOrder, Members;
    forall e | 0 <= e < |r.lives| ensures InLife(r.stage.all, r.lives[e]) <==> Fits(r.stage.all, r.lives[e]) {
      FitsIff(r.stage.all, r.lives[e]);
    }
    if r.calm {
      assert Start(r) == r.lives[0].trail[..r.lives[0].origin];
      assert Fits(r.stage.all, r.lives[0]) <==> InOrder(r.stage.all, r.lives[0].trail);
    }
  }

  ghost predicate Linearized(r: Reader) {
    Open(r) || Reached(r.stage) in r.views
  }

  /** A publication whose fate fits no moment. */
  ghost predicate Misfit(r: Reader) {
    || (r.stage.Dropped? && r.calm)
    || (r.stage.Fanned? && forall e :: 0 <= e < |r.lives| ==> !Fits(r.stage.all, r.lives[e]))
  }

  /** The combined broker, over any run: all publications that have ended
      linearize exactly if none is a misfit. */
  lemma RunLinearizesIff(steps: seq<Step>)
    requires NeverWraps(steps)
    ensures var rs := After(steps).readers;
            (forall i :: 0 <= i < |rs| ==> Linearized(rs[i])) <==> (forall i :: 0 <= i < |rs| ==> !Misfit(rs[i]))
  {
    var rs := After(steps).readers;
    hide After, Fits;
    forall i | 0 <= i < |rs| ensures Linearized(rs[i]) <==> !Misfit(rs[i]) {
      LinearizesIff(steps, i);
    }
  }

  /** An iteration that meets no write reaches the inner set, which was in force
      unless a SUBSCRIBE of someone new has inserted but not yet counted. */
  lemma WholeSetInForceIff(steps: seq<Step>, i: nat)
    requires NeverWraps(steps) && i < |After(steps).readers|
    requires After(steps).readers[i].calm && After(steps).readers[i].stage.Passed?
    ensures var s := After(steps);
            s.subs in s.readers[i].views <==> !(s.pc.Inserted? && s.pc.packed !in Members(s.accepted))
  {
    Invariant(steps);
    var s := After(steps);
    var r := s.readers[i];
    assert ReaderInv(s, r);
    assert s.pc.Inserted? && s.pc.packed in Members(s.accepted) ==> s.subs == Members(s.accepted);
    var l := r.lives[0];
    assert r.lives == [l];
    if s.subs in r.views {
      var j :| l.origin <= j <= |l.trail| && s.subs == Members(l.trail[..j]);
      MembersOfPrefix(l.trail, j, |l.trail|);
      assert l.trail[..|l.trail|] == l.trail;
    }
  }

  // ------------------------------------- what a publication's record means

  /** After `m` steps publication `i` was between its reads. */
  predicate OpenAt(steps: seq<Step>, i: nat, m: nat) {
    m <= |steps| && i < |After(steps[..m]).readers| && Open(After(steps[..m]).readers[i])
  }

  /** The subscriber sets in force at the moments it was open. */
  function SetsInForce(steps: seq<Step>, i: nat): set<set<U64>> {
    set m: nat | m <= |steps| && OpenAt(steps, i, m) :: Members(After(steps[..m]).accepted)
  }

  function Inserting(s: S): set<U64> {
    if s.pc.Inserted? then {s.pc.packed} else {}
  }

  /** The subscribers being inserted at those moments. */
  predicate InsertedMeanwhile(steps: seq<Step>, i: nat, a: U64) {
    exists m: nat :: m <= |steps| && OpenAt(steps, i, m) && a in Inserting(After(steps[..m]))
  }

  predicate NoFlushMeanwhile(steps: seq<Step>, i: nat) {
    forall m: nat :: m <= |steps| && OpenAt(steps, i, m) ==> !FlushRuns(After(steps[..m]))
  }

  /** The number of steps before it read the count. */
  function StartOf(steps: seq<Step>, i: nat): (m: nat)
    requires i < |After(steps).readers|
    ensures m < |steps|
  {
    var before := steps[..|steps| - 1];
    if i < |After(before).readers| then StartOf(before, i) else |before|
  }

  /** What a step does to the record of a publication that was already there. */
  lemma RecordStep(s: S, step: Step, i: nat)
    requires DaemonInv(s) && i < |s.readers| && ReaderInv(s, s.readers[i])
    ensures var t := Do(s, step);
            && i < |t.readers|
            && RecordFollows(s.readers[i], t.readers[i], t)
  {
    WhileOpen(s, s.readers[i]);
    hide DaemonInv, ReaderInv, UpToDate, Do, RecordFollows;
    if OfDaemon(step) {
      DaemonRecord(s, step, i);
    } else {
      ReaderRecord(s, step, i);
    }
  }

  predicate UpToDate(s: S, r: Reader) {
    Open(r) ==>
      && r.lives != [] && r.lives[|r.lives| - 1].trail == s.accepted && r.views + {Members(s.accepted)} == r.views
      && r.touched + Inserting(s) == r.touched && (r.calm ==> !FlushRuns(s))
  }

  lemma WhileOpen(s: S, r: Reader)
    requires DaemonInv(s) && ReaderInv(s, r)
    ensures UpToDate(s, r)
  {
    hide DaemonInv, Members, Known, ViewsAre, Start;
  }

  predicate OfDaemon(step: Step) {
    step.InsertSubscriber? || step.WriteCount? || step.WriteFirst? || step.BeginFlush? || step.DeleteSubscriber?
    || step.ZeroCount? || step.DeleteFirst?
  }

  lemma DaemonRecord(s: S, step: Step, i: nat)
    requires i < |s.readers| && UpToDate(s, s.readers[i]) && OfDaemon(step)
    ensures i < |Do(s, step).readers| && RecordFollows(s.readers[i], Do(s, step).readers[i], Do(s, step))
  {
    NothingKnown();
    hide Members, Add32;
    match step
    case WriteCount =>
    case _ =>
  }

  lemma ReaderRecord(s: S, step: Step, i: nat)
    requires i < |s.readers| && UpToDate(s, s.readers[i]) && !OfDaemon(step)
    ensures i < |Do(s, step).readers| && RecordFollows(s.readers[i], Do(s, step).readers[i], Do(s, step))
  {
    hide Members;
    match step
    case ReadCount =>
    case _ =>
  }

  predicate RecordFollows(r: Reader, q: Reader, t: S) {
    && q.done == r.done
    && (Open(q) ==>
         && Open(r) && q.views == r.views + {Members(t.accepted)}
         && (q.calm <==> r.calm && !FlushRuns(t)) && q.touched == r.touched + Inserting(t))
    && (!Open(q) ==> q.views == r.views && q.calm == r.calm && q.touched == r.touched)
  }

  /** ... and with which record a publication begins. */
  lemma NewRecord(s: S)
    requires DaemonInv(s)
    ensures var t := Do(s, ReadCount);
            var r := t.readers[|s.readers|];
            && Open(r) && r.views == {Members(t.accepted)} && (r.calm <==> !FlushRuns(t)) && r.touched == Inserting(t)
            && Complete(s, r.done)
  {
    hide Members;
  }

  /** `done` is the set of subscribers whose SUBSCRIBE is complete in `s`: all of
      them between commands, and all but the one under way. */
  predicate Complete(s: S, done: set<U64>) {
    && (s.pc.Idle? ==> done == s.subs)
    && (s.pc.Inserted? ==> s.subs - {s.pc.packed} <= done <= s.subs)
    && (s.pc.Counted? ==> done == {})
  }

  lemma OnlyReadCountAdds(s: S, step: Step)
    ensures |Do(s, step).readers| == if step.ReadCount? then |s.readers| + 1 else |s.readers|
  {
  }

  /** One more step is one more moment. */
  lemma MomentsOf(before: seq<Step>, step: Step, i: nat)
    ensures var steps := before + [step];
            var open := i < |After(steps).readers| && Open(After(steps).readers[i]);
            && SetsInForce(steps, i) == SetsInForce(before, i) + (if open then {Members(After(steps).accepted)} else {})
            && (NoFlushMeanwhile(steps, i) <==> NoFlushMeanwhile(before, i) && (open ==> !FlushRuns(After(steps))))
            && (forall a :: InsertedMeanwhile(steps, i, a) <==>
                  InsertedMeanwhile(before, i, a) || (open && a in Inserting(After(steps))))
  {
    hide After, Members, Inserting, FlushRuns;
    var steps, n := before + [step], |before|;
    assert steps[..n + 1] == steps;
    assert forall m :: 0 <= m <= n ==> before[..m] == steps[..m];
    assert forall m :: 0 <= m <= n ==> (OpenAt(steps, i, m) <==> OpenAt(before, i, m));
    var open := i < |After(steps).readers| && Open(After(steps).readers[i]);
    assert OpenAt(steps, i, n + 1) <==> open;
    forall v ensures v in SetsInForce(steps, i) <==>
                     v in SetsInForce(before, i) || (open && v == Members(After(steps).accepted)) {
      if v in SetsInForce(before, i) {
        var m: nat :| m <= n && OpenAt(before, i, m) && v == Members(After(before[..m]).accepted);
        assert OpenAt(steps, i, m) && v == Members(After(steps[..m]).accepted);
      }
      if v in SetsInForce(steps, i) {
        var m: nat :| m <= n + 1 && OpenAt(steps, i, m) && v == Members(After(steps[..m]).accepted);
        assert m <= n ==> OpenAt(before, i, m) && v == Members(After(before[..m]).accepted);
      }
    }
  }

  lemma NobodyYet(steps: seq<Step>, i: nat)
    requires i >= |After(steps).readers|
    ensures forall m: nat :: m <= |steps| ==> !OpenAt(steps, i, m)
  {
    forall m: nat | m <= |steps| ensures i >= |After(steps[..m]).readers| {
      ReadersOnlyGrow(steps, m);
    }
  }

  lemma {:induction false} ReadersOnlyGrow(steps: seq<Step>, m: nat)
    requires m <= |steps|
    ensures |After(steps[..m]).readers| <= |After(steps).readers|
  {
    if m == |steps| {
      assert steps[..m] == steps;
    } else {
      var before := steps[..|steps| - 1];
      ReadersOnlyGrow(before, m);
      assert before[..m] == steps[..m];
      OnlyReadCountAdds(After(before), steps[|steps| - 1]);
    }
  }

  lemma Shorter(steps: seq<Step>, n: nat)
    requires NeverWraps(steps) && n <= |steps|
    ensures NeverWraps(steps[..n])
  {
    hide After;
    forall m | 0 <= m <= n ensures |After(steps[..n][..m]).accepted| < 0x1_0000_0000 {
      assert steps[..n][..m] == steps[..m];
    }
  }

  /** The record of every publication means what it says: its views are the sets
      in force at the moments it was open, it is calm exactly if no flush ran at
      any of them, it was touched by the SUBSCRIBEs inserting at any of them, and
      `done` are the subscribers whose SUBSCRIBE was complete at its count read. */
  lemma {:induction false} RecordIsMoments(steps: seq<Step>, i: nat)
    requires NeverWraps(steps) && i < |After(steps).readers|
    ensures var r := After(steps).readers[i];
            && r.views == SetsInForce(steps, i)
            && (r.calm <==> NoFlushMeanwhile(steps, i))
            && (forall a :: a in r.touched <==> InsertedMeanwhile(steps, i, a))
    ensures StartsComplete(steps, i)
  {
    assert steps != [];
    var n := |steps| - 1;
    var before, step := steps[..n], steps[n];
    assert steps == before + [step];
    Then(before, step);
    var s := After(before);
    hide After, Do, Members, SetsInForce, NoFlushMeanwhile, InsertedMeanwhile, DaemonInv, ReaderInv, StartsComplete, Complete;
    Shorter(steps, n);
    MomentsOf(before, step, i);
    Invariant(before);
    OnlyReadCountAdds(s, step);
    if i < |s.readers| {
      RecordIsMoments(before, i);
      RecordStep(s, step, i);
      StartStays(before, step, i);
    } else {
      NewRecord(s);
      NobodyYet(before, i);
      NoMoments(before, i);
      StartIsNow(before, i);
    }
  }

  /** It begins with its count read, when `done` is complete. */
  ghost predicate StartsComplete(steps: seq<Step>, i: nat)
    requires i < |After(steps).readers|
  {
    var start := steps[..StartOf(steps, i)];
    steps[|start|] == ReadCount && |After(start).readers| == i && Complete(After(start), After(steps).readers[i].done)
  }

  lemma StartStays(before: seq<Step>, step: Step, i: nat)
    requires i < |After(before).readers| && StartsComplete(before, i)
    requires i < |After(before + [step]).readers| && After(before + [step]).readers[i].done == After(before).readers[i].done
    ensures StartsComplete(before + [step], i)
  {
    hide After, Complete;
    var steps := before + [step];
    assert steps[..|steps| - 1] == before;
    assert steps[..StartOf(before, i)] == before[..StartOf(before, i)];
  }

  lemma StartIsNow(before: seq<Step>, i: nat)
    requires i == |After(before).readers| && i < |After(before + [ReadCount]).readers|
    requires Complete(After(before), After(before + [ReadCount]).readers[i].done)
    ensures StartsComplete(before + [ReadCount], i)
  {
    hide After, Complete;
    var steps := before + [ReadCount];
    assert steps[..|steps| - 1] == before;
  }

  lemma NoMoments(steps: seq<Step>, i: nat)
    requires forall m: nat :: m <= |steps| ==> !OpenAt(steps, i, m)
    ensures SetsInForce(steps, i) == {} && NoFlushMeanwhile(steps, i) && forall a :: !InsertedMeanwhile(steps, i, a)
  {
    hide OpenAt, After, Members;
  }

  /** One more step of a concrete trace. */
  lemma Then(steps: seq<Step>, step: Step)
    ensures After(steps + [step]) == Do(After(steps), step)
  {
    assert (steps + [step])[..|steps|] == steps;
  }

  /** In the window between count and first subscriber the publish is lost
      although the set was never empty. */
  lemma DropInWindow(p: U64)
    ensures var s := After([InsertSubscriber(p), WriteCount, ReadCount, ReadFirst(0)]);
            && |s.readers| == 1 && s.readers[0].stage == Dropped && s.readers[0].calm
            && s.readers[0].views == {{p}} && s.subs == {p}
  {
    var a, b, c, d := InsertSubscriber(p), WriteCount, ReadCount, ReadFirst(0);
    Then([], a);
    Then([a], b);
    Then([a, b], c);
    Then([a, b, c], d);
    assert [] + [a] == [a] && [a] + [b] == [a, b] && [a, b] + [c] == [a, b, c] && [a, b, c] + [d] == [a, b, c, d];
    assert After([]) == INIT;
    hide After, Do;
    WindowOpens(p);
    LostInWindow(p);
  }

  lemma WindowOpens(p: U64)
    ensures Do(Do(INIT, InsertSubscriber(p)), WriteCount) == S({p}, Some(1), None, Counted(p), [p], [])
  {
    assert [] + [p] == [p];
  }

  lemma LostInWindow(p: U64)
    ensures var s := Do(Do(S({p}, Some(1), None, Counted(p), [p], []), ReadCount), ReadFirst(0));
            && |s.readers| == 1 && s.readers[0].stage == Dropped && s.readers[0].calm
            && s.readers[0].views == {{p}} && s.subs == {p}
  {
    Singleton(p);
  }

  /** The state in which one publication has passed to the fan-out and `q` has
      subscribed. */
  function OneSubscribed(q: U64, stage: Stage): S {
    S({q}, Some(1), Some(q), Idle, [q], [Reader(stage, {{}, {q}}, [Life(0, [q])], {q}, {}, true)])
  }

  /** A SUBSCRIBE from the empty state, with a publication waiting or walking. */
  lemma FirstSubscriber(stage: Stage, q: U64)
    requires stage.Passed? || stage.Walking?
    ensures Exec(S({}, None, None, Idle, [], [Reader(stage, {{}}, [Life(0, [])], {}, {}, true)]),
                 [InsertSubscriber(q), WriteCount, WriteFirst]) == OneSubscribed(q, stage)
  {
    var s := S({}, None, None, Idle, [], [Reader(stage, {{}}, [Life(0, [])], {}, {}, true)]);
    ExecThree(s, InsertSubscriber(q), WriteCount, WriteFirst);
    hide Exec;
    Singleton(q);
    assert [] + [q] == [q];
    var none: set<U64> := {};
    assert {none} + {{q}} == {none, {q}};
    var s1 := Do(s, InsertSubscriber(q));
    assert s1.readers == [Reader(stage, {{}}, [Life(0, [])], {q}, {}, true)];
    var s2 := Do(s1, WriteCount);
    assert [Life(0, [])][0 := Life(0, [q])] == [Life(0, [q])];
    assert s2.readers == [Reader(stage, {{}, {q}}, [Life(0, [q])], {q}, {}, true)];
  }

  lemma ExecThree(s: S, a: Step, b: Step, c: Step)
    ensures Exec(s, [a, b, c]) == Do(Do(Do(s, a), b), c)
  {
    ExecOne(s, [], a);
    ExecOne(s, [a], b);
    ExecOne(s, [a, b], c);
    assert [] + [a] == [a] && [a] + [b] == [a, b] && [a, b] + [c] == [a, b, c];
    assert Exec(s, []) == s;
  }

  lemma PassedFirst()
    ensures After([ReadCount]) == S({}, None, None, Idle, [], [Reader(Passed, {{}}, [Life(0, [])], {}, {}, true)])
  {
    Then([], ReadCount);
    assert [] + [ReadCount] == [ReadCount];
    NothingKnown();
  }

  /** `q` has subscribed, `p` is inserted, and the publication has visited `q`. */
  function Half(q: U64, p: U64): S {
    S({q, p}, Some(1), Some(q), Inserted(p), [q], [Reader(Walking({q}, {q, p}), {{}, {q}}, [Life(0, [q])], {q, p}, {}, true)])
  }

  function ToHalf(q: U64, p: U64): seq<Step> {
    [ReadCount] + [InsertSubscriber(q), WriteCount, WriteFirst] + [InsertSubscriber(p), BeginWalk(0), Visit(0, q)]
  }

  lemma ReachHalf(q: U64, p: U64)
    requires q != p
    ensures After(ToHalf(q, p)) == Half(q, p)
  {
    var one := [ReadCount] + [InsertSubscriber(q), WriteCount, WriteFirst];
    PassedFirst();
    FirstSubscriber(Passed, q);
    ExecConcat(INIT, [ReadCount], [InsertSubscriber(q), WriteCount, WriteFirst]);
    ExecConcat(INIT, one, [InsertSubscriber(p), BeginWalk(0), Visit(0, q)]);
    ExecThree(OneSubscribed(q, Passed), InsertSubscriber(p), BeginWalk(0), Visit(0, q));
    HalfSubscribed(q, p);
    hide Exec, Do;
  }

  lemma HalfSubscribed(q: U64, p: U64)
    requires q != p
    ensures Do(Do(Do(OneSubscribed(q, Passed), InsertSubscriber(p)), BeginWalk(0)), Visit(0, q)) == Half(q, p)
  {
    assert {q} + {p} == {q, p} && {} + {q} == {q};
  }

  lemma FromHalf(q: U64, p: U64)
    requires q != p
    ensures var early := Do(Do(Half(q, p), Visit(0, p)), EndWalk(0));
            var late := Do(Do(early, ReadCount), ReadFirst(1));
            && |early.readers| == 1 && Reached(early.readers[0].stage) == {q, p}
            && |late.readers| == 2 && Reached(late.readers[1].stage) == {q}
            && late.readers[0] == early.readers[0] && late.readers[0].calm && late.readers[1].calm
  {
    hide Members;
    assert {q} + {p} == {q, p};
  }

  /** The combined broker does not linearize.  The first publication ends having
      reached both `q` and `p`; the second begins only after that, no flush
      happens, and it reaches `q` alone: the inner map is written before the
      count that decides which path reads it. */
  lemma PathsDisagree(q: U64, p: U64)
    requires q != p
    ensures var early := ToHalf(q, p) + [Visit(0, p)] + [EndWalk(0)];
            var late := early + [ReadCount] + [ReadFirst(1)];
            && |After(early).readers| == 1 && Reached(After(early).readers[0].stage) == {q, p}
            && |After(late).readers| == 2 && Reached(After(late).readers[1].stage) == {q}
            && After(late).readers[0] == After(early).readers[0]
            && After(late).readers[0].calm && After(late).readers[1].calm
  {
    var two := ToHalf(q, p);
    var early := two + [Visit(0, p)] + [EndWalk(0)];
    ReachHalf(q, p);
    Then(two, Visit(0, p));
    Then(two + [Visit(0, p)], EndWalk(0));
    Then(early, ReadCount);
    Then(early + [ReadCount], ReadFirst(1));
    FromHalf(q, p);
    hide Do, After, Half, ToHalf;
  }

  /** `q`, then `p` subscribed while an iteration that began empty visited `p`. */
  function Late(q: U64, p: U64): S {
    S({q, p}, Some(2), Some(q), Idle, [q, p],
      [Reader(Walking({p}, {}), {{}, {q}, {q, p}}, [Life(0, [q, p])], {q, p}, {}, true)])
  }

  lemma SecondSubscribed(q: U64, p: U64)
    requires q != p
    ensures Do(Do(Do(OneSubscribed(q, Walking({}, {})), InsertSubscriber(p)), WriteCount), Visit(0, p)) == Late(q, p)
  {
    assert {q} + {p} == {q, p} && {} + {p} == {p} && [q] + [p] == [q, p];
    MembersSnoc([q], p);
    Singleton(q);
    hide Members;
    var none: set<U64> := {};
    assert {none, {q}} + {{q, p}} == {none, {q}, {q, p}};
    var s1 := Do(OneSubscribed(q, Walking({}, {})), InsertSubscriber(p));
    assert s1.readers == [Reader(Walking({}, {}), {{}, {q}}, [Life(0, [q])], {q, p}, {}, true)];
    var s2 := Do(s1, WriteCount);
    assert [Life(0, [q])][0 := Life(0, [q, p])] == [Life(0, [q, p])];
    assert s2.readers == [Reader(Walking({}, {}), {{}, {q}, {q, p}}, [Life(0, [q, p])], {q, p}, {}, true)];
  }

  /** An iteration that meets SUBSCRIBEs can fit no moment at all: it misses `q`,
      whose SUBSCRIBE was complete before that of `p` began, and reaches `p`. */
  lemma WalkOutOfOrder(q: U64, p: U64)
    requires q != p
    ensures var steps := [ReadCount] + [BeginWalk(0)] + [InsertSubscriber(q), WriteCount, WriteFirst]
                         + [InsertSubscriber(p), WriteCount, Visit(0, p)] + [EndWalk(0)];
            After(steps) == Advance(Late(q, p), 0, Fanned({p}))
    ensures Late(q, p).pc.Idle? && Late(q, p).readers[0].calm && {p} !in Late(q, p).readers[0].views
  {
    var zero := [ReadCount] + [BeginWalk(0)];
    var one := zero + [InsertSubscriber(q), WriteCount, WriteFirst];
    var two := one + [InsertSubscriber(p), WriteCount, Visit(0, p)];
    assert p in {q, p} && q in {q, p};
    PassedFirst();
    Then([ReadCount], BeginWalk(0));
    WalkFromNothing();
    Then(two, EndWalk(0));
    assert Do(Late(q, p), EndWalk(0)) == Advance(Late(q, p), 0, Fanned({p}));
    FirstSubscriber(Walking({}, {}), q);
    SecondSubscribed(q, p);
    hide Do;
    ExecConcat(INIT, zero, [InsertSubscriber(q), WriteCount, WriteFirst]);
    ExecConcat(INIT, one, [InsertSubscriber(p), WriteCount, Visit(0, p)]);
    ExecThree(OneSubscribed(q, Walking({}, {})), InsertSubscriber(p), WriteCount, Visit(0, p));
    hide Exec, Late, OneSubscribed;
  }

  lemma WalkFromNothing()
    ensures Do(S({}, None, None, Idle, [], [Reader(Passed, {{}}, [Life(0, [])], {}, {}, true)]), BeginWalk(0))
            == S({}, None, None, Idle, [], [Reader(Walking({}, {}), {{}}, [Life(0, [])], {}, {}, true)])
  {
  }

  // -------------------------------------- the steps are the daemon's commands

  /** One topic of the daemon's maps, between commands. */
  function Project(d: State, k: Key, accepted: seq<U64>, readers: seq<Reader>): S
    requires k in d.subs
  {
    S(d.subs[k], if k in d.count then Some(d.count[k]) else None, if k in d.first then Some(d.first[k]) else None,
      Idle, accepted, readers)
  }

  lemma ExecOne(s: S, steps: seq<Step>, step: Step)
    ensures Exec(s, steps + [step]) == Do(Exec(s, steps), step)
  {
    assert (steps + [step])[..|steps|] == steps;
  }

  /** Uninterrupted, the steps of a SUBSCRIBE are the daemon's `add_subscriber`. */
  lemma SubscribeSteps(d: State, k: Key, p: U64, accepted: seq<U64>)
    requires SideMapsFit(d) && k in d.subs
    ensures k in AddSubscriber(d, k, p).subs
    ensures Exec(Project(d, k, accepted, []), [InsertSubscriber(p), WriteCount, WriteFirst])
            == Project(AddSubscriber(d, k, p), k, if Admits(d, k, p) then accepted + [p] else accepted, [])
  {
    hide SideMapsFit, HasRoom;
    var s := Project(d, k, accepted, []);
    ExecOne(s, [], InsertSubscriber(p));
    ExecOne(s, [InsertSubscriber(p)], WriteCount);
    ExecOne(s, [InsertSubscriber(p), WriteCount], WriteFirst);
    assert [InsertSubscriber(p)] + [WriteCount] == [InsertSubscriber(p), WriteCount];
    assert [InsertSubscriber(p), WriteCount] + [WriteFirst] == [InsertSubscriber(p), WriteCount, WriteFirst];
    assert [] + [InsertSubscriber(p)] == [InsertSubscriber(p)];
    hide Exec;
    if Admits(d, k, p) {
      SubscribeWrites(d, k, p);
      hide AddSubscriber, Add32, Members;
    }
  }

  function Deletes(order: seq<U64>): seq<Step> {
    seq(|order|, i requires 0 <= i < |order| => DeleteSubscriber(order[i]))
  }

  lemma {:induction false} DeleteSteps(s: S, order: seq<U64>)
    requires s.pc.Flushing? && s.readers == []
    ensures Exec(s, Deletes(order)) == s.(subs := s.subs - Members(order))
  {
    if order == [] {
      assert s.subs - Members(order) == s.subs;
    } else {
      var n := |order| - 1;
      DeleteSteps(s, order[..n]);
      assert Deletes(order)[..n] == Deletes(order[..n]);
      assert order == order[..n] + [order[n]];
      MembersSnoc(order[..n], order[n]);
      hide Members, Each;
      assert s.subs - Members(order[..n]) - {order[n]} == s.subs - Members(order);
    }
  }

  lemma {:induction false} ExecConcat(s: S, a: seq<Step>, b: seq<Step>)
    ensures Exec(s, a + b) == Exec(Exec(s, a), b)
  {
    if b == [] {
      assert a + b == a;
    } else {
      var n := |b| - 1;
      assert (a + b)[..|a + b| - 1] == a + b[..n];
      ExecConcat(s, a, b[..n]);
    }
  }

  lemma FlushEnds(d: State, k: Key, accepted: seq<U64>)
    requires k in d.subs && HasRoom(d.count, k)
    ensures var s := Project(d, k, accepted, []).(subs := {}, pc := Flushing(d.subs[k]));
            Do(Do(s, ZeroCount), DeleteFirst) == Project(FlushTopic(d, k), k, [], [])
  {
    hide HasRoom, Members;
  }

  lemma FlushBegins(d: State, k: Key, order: seq<U64>, accepted: seq<U64>)
    requires k in d.subs && Enumerates(order, d.subs[k])
    ensures Exec(Project(d, k, accepted, []), [BeginFlush] + Deletes(order))
            == Project(d, k, accepted, []).(subs := {}, pc := Flushing(d.subs[k]))
  {
    var s := Project(d, k, accepted, []);
    assert d.subs[k] - Members(order) == {};
    assert Exec(s, []) == s;
    hide Exec, Enumerates;
    ExecOne(s, [], BeginFlush);
    assert [] + [BeginFlush] == [BeginFlush];
    ExecConcat(s, [BeginFlush], Deletes(order));
    DeleteSteps(Do(s, BeginFlush), order);
  }

  /** ... those of a FLUSH, deleting in any order, its `flush_topic` ... */
  lemma FlushSteps(d: State, k: Key, order: seq<U64>, accepted: seq<U64>)
    requires SideMapsFit(d) && k in d.subs && Enumerates(order, d.subs[k])
    ensures k in FlushTopic(d, k).subs
    ensures Exec(Project(d, k, accepted, []), [BeginFlush] + Deletes(order) + [ZeroCount] + [DeleteFirst])
            == Project(FlushTopic(d, k), k, [], [])
  {
    RoomForRegistered(d, k);
    FlushBegins(d, k, order, accepted);
    FlushEnds(d, k, accepted);
    hide SideMapsFit, HasRoom, Exec, Do, Deletes, Project;
    var s := Project(d, k, accepted, []);
    ExecOne(s, [BeginFlush] + Deletes(order), ZeroCount);
    ExecOne(s, [BeginFlush] + Deletes(order) + [ZeroCount], DeleteFirst);
  }

  /** ... and the two reads of a publication are `xdp_broker`'s decision. */
  lemma PublishSteps(d: State, k: Key, accepted: seq<U64>, f: seq<Byte>)
    requires k in d.subs && PublishKey(f) == Some(k)
    ensures var s := Exec(Project(d, k, accepted, []), [ReadCount, ReadFirst(0)]);
            |s.readers| == 1 && s.readers[0].stage ==
              match Decide(d.count, d.first, f)
              case ToStack => Passed
              case Discard => Dropped
              case Forward(p) => Sent(p)
  {
    hide PublishKey;
    var s := Project(d, k, accepted, []);
    ExecOne(s, [], ReadCount);
    ExecOne(s, [ReadCount], ReadFirst(0));
    assert [] + [ReadCount] == [ReadCount] && [ReadCount] + [ReadFirst(0)] == [ReadCount, ReadFirst(0)];
    assert Exec(s, []) == s;
  }

  function Visits(order: seq<U64>): seq<Step> {
    seq(|order|, i requires 0 <= i < |order| => Visit(0, order[i]))
  }

  lemma {:induction false} VisitSteps(s: S, order: seq<U64>)
    requires |s.readers| == 1 && s.readers[0].stage == Walking({}, s.subs)
    requires Members(order) <= s.subs && forall i, j :: 0 <= i < j < |order| ==> order[i] != order[j]
    ensures Exec(s, Visits(order)) == Advance(s, 0, Walking(Members(order), s.subs))
  {
    if order == [] {
      NothingKnown();
      assert s.readers[0 := s.readers[0]] == s.readers;
    } else {
      var n := |order| - 1;
      assert order == order[..n] + [order[n]];
      MembersSnoc(order[..n], order[n]);
      assert order[n] in s.subs && order[n] !in Members(order[..n]);
      VisitSteps(s, order[..n]);
      OneVisit(s, Members(order[..n]), order[n]);
      hide Members, Do;
      assert Visits(order)[..n] == Visits(order[..n]);
    }
  }

  lemma OneVisit(s: S, seen: set<U64>, p: U64)
    requires |s.readers| == 1 && p in s.subs - seen
    ensures Do(Advance(s, 0, Walking(seen, s.subs)), Visit(0, p)) == Advance(s, 0, Walking(seen + {p}, s.subs))
  {
  }

  lemma WalkEnds(s: S)
    requires |s.readers| == 1
    ensures Do(Advance(s, 0, Walking(s.subs, s.subs)), EndWalk(0)) == Advance(s, 0, Fanned(s.subs))
  {
  }

  /** The iteration, uninterrupted and in any order, reaches the inner map once
      each, as the fan-out loop does. */
  lemma WalkSteps(s: S, order: seq<U64>)
    requires |s.readers| == 1 && s.readers[0].stage == Passed && Enumerates(order, s.subs)
    ensures Exec(s, [BeginWalk(0)] + Visits(order) + [EndWalk(0)]) == Advance(s, 0, Fanned(s.subs))
  {
    assert Members(order) == s.subs;
    assert Exec(s, []) == s;
    var begun := Advance(s, 0, Walking({}, s.subs));
    ExecOne(s, [], BeginWalk(0));
    assert [] + [BeginWalk(0)] == [BeginWalk(0)];
    ExecConcat(s, [BeginWalk(0)], Visits(order));
    VisitSteps(begun, order);
    assert Advance(begun, 0, Walking(s.subs, s.subs)) == Advance(s, 0, Walking(s.subs, s.subs));
    ExecOne(s, [BeginWalk(0)] + Visits(order), EndWalk(0));
    WalkEnds(s);
    assert Do(s, BeginWalk(0)) == begun;
    hide Exec, Visits, Members, Do, Advance, Enumerates;
  }
}
