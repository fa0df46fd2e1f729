/** The benchmark's latency accounting: every subscriber worker keeps a table
    per sequence number, and the tables are merged when the trial ends. */
module Aggregation {
  import opened Words
  import opened Enumeration

  const MAX_TRACKED_PKTS: nat := 500_000

  /** One parsed copy: its sequence number, send time and arrival time. */
  datatype Arrival = Arrival(number: U64, sentAt: nat, at: nat)

  datatype Entry = Entry(sentAt: nat, latest: nat, copies: nat)

  type Table = map<U64, Entry>

  function Max(a: nat, b: nat): nat {
    if a > b then a else b
  }

  /** One arrival at one worker; a full table admits no new number. */
  function Track(t: Table, a: Arrival): Table {
    if a.number in t then
      var e := t[a.number];
      t[a.number := Entry(e.sentAt, Max(a.at, e.latest), e.copies + 1)]
    else if |t| < MAX_TRACKED_PKTS then t[a.number := Entry(a.sentAt, a.at, 1)]
    else t
  }

  function TrackAll(arrivals: seq<Arrival>): Table {
    if arrivals == [] then map[] else Track(TrackAll(arrivals[..|arrivals| - 1]), arrivals[|arrivals| - 1])
  }

  /** One worker's entry folded into the global one. */
  function Fold(g: Table, k: U64, e: Entry): Entry {
    if k in g then Entry(g[k].sentAt, Max(e.latest, g[k].latest), g[k].copies + e.copies) else e
  }

  function Merge(g: Table, t: Table): Table {
    map k | k in g.Keys + t.Keys :: if k in t then Fold(g, k, t[k]) else g[k]
  }

  function MergeAll(tables: seq<Table>): Table {
    if tables == [] then map[] else Merge(MergeAll(tables[..|tables| - 1]), tables[|tables| - 1])
  }

  class Worker {
    var perPacket: Table

    constructor ()
      ensures perPacket == map[]
    {
      perPacket := map[];
    }

    method Receive(a: Arrival)
      modifies this
      ensures perPacket == Track(old(perPacket), a)
    {
      if a.number in perPacket {
        var e := perPacket[a.number];
        if a.at > e.latest {
          e := e.(latest := a.at);
        }
        perPacket := perPacket[a.number := e.(copies := e.copies + 1)];
      } else if |perPacket| < MAX_TRACKED_PKTS {
        perPacket := perPacket[a.number := Entry(a.sentAt, a.at, 1)];
      }
    }
  }

  /** The merge loops: tables in order, the entries of each in any order. */
  method MergeTables(tables: seq<Table>) returns (global: Table)
    ensures global == MergeAll(tables)
  {
    hide Merge, Fold;
    global := map[];
    for i := 0 to |tables|
      invariant global == MergeAll(tables[..i])
    {
      ghost var before := global;
      var t := tables[i];
      var rest := t.Keys;
      MergeNothing(before, t);
      while rest != {}
        invariant rest <= t.Keys
        invariant global == Merge(before, t - rest)
        decreases rest
      {
        var k :| k in rest;
        MergeOneMore(before, t, rest, k);
        var e := if k in global then global[k] else Entry(t[k].sentAt, 0, 0);
        if t[k].latest > e.latest {
          e := e.(latest := t[k].latest);
        }
        global := global[k := e.(copies := e.copies + t[k].copies)];
        rest := rest - {k};
      }
      assert t - rest == t;
      assert tables[..i + 1][..i] == tables[..i];
    }
    assert tables[..|tables|] == tables;
  }

  lemma MergeNothing(g: Table, t: Table)
    ensures Merge(g, t - t.Keys) == g
  {
  }

  lemma MergeOneMore(g: Table, t: Table, rest: set<U64>, k: U64)
    requires k in rest && rest <= t.Keys
    ensures Merge(g, t - (rest - {k})) == Merge(g, t - rest)[k := Fold(g, k, t[k])]
    ensures k in Merge(g, t - rest) <==> k in g
    ensures k in g ==> Merge(g, t - rest)[k] == g[k]
    ensures Fold(g, k, t[k]) == var e := if k in g then g[k] else Entry(t[k].sentAt, 0, 0);
                                Entry(e.sentAt, Max(t[k].latest, e.latest), e.copies + t[k].copies)
  {
  }

  /** A sequence number counts when all `subs` copies are in. */
  function Complete(g: Table, subs: nat): set<U64> {
    set k | k in g && g[k].copies == subs
  }

  function Latency(e: Entry): nat {
    if e.latest < e.sentAt then 0 else e.latest - e.sentAt
  }

  /** `latencies` are the samples of the complete entries, each once, in the
      order `order` visits them. */
  ghost predicate ListsLatencies(order: seq<U64>, latencies: seq<nat>, g: Table, keys: set<U64>) {
    && Enumerates(order, keys)
    && |latencies| == |order|
    && forall i :: 0 <= i < |order| ==> order[i] in g && latencies[i] == Latency(g[order[i]])
  }

  /** The final filter and map over the table's values, in any order. */
  method Latencies(g: Table, subs: nat) returns (latencies: seq<nat>)
    ensures exists order :: ListsLatencies(order, latencies, g, Complete(g, subs))
  {
    latencies := [];
    ghost var order: seq<U64> := [];
    var rest := g.Keys;
    while rest != {}
      invariant rest <= g.Keys && ListsLatencies(order, latencies, g, Complete(g, subs) - rest)
      decreases rest
    {
      var k :| k in rest;
      if g[k].copies == subs {
        latencies, order := latencies + [Latency(g[k])], order + [k];
      }
      rest := rest - {k};
    }
    assert Complete(g, subs) - rest == Complete(g, subs);
  }

  // ----------------------------------------------- what the tables mean

  function Count(arrivals: seq<Arrival>, k: U64): nat {
    if arrivals == [] then 0
    else Count(arrivals[..|arrivals| - 1], k) + (if arrivals[|arrivals| - 1].number == k then 1 else 0)
  }

  /** The send time the first copy of `k` carries. */
  function FirstSent(arrivals: seq<Arrival>, k: U64): nat {
    if arrivals == [] then 0
    else if Count(arrivals[..|arrivals| - 1], k) > 0 then FirstSent(arrivals[..|arrivals| - 1], k)
    else arrivals[|arrivals| - 1].sentAt
  }

  /** The entry of `k`, said without folding: it exists when a copy arrived,
      carries the first copy's send time, the number of copies, and the latest
      arrival. */
  ghost predicate DescribesOne(t: Table, arrivals: seq<Arrival>, k: U64) {
    && (k in t <==> Count(arrivals, k) > 0)
    && (k in t ==>
         && t[k].copies == Count(arrivals, k)
         && (exists a :: a in arrivals && a.number == k && a.at == t[k].latest)
         && (forall a :: a in arrivals && a.number == k ==> a.at <= t[k].latest)
         && t[k].sentAt == FirstSent(arrivals, k))
  }

  ghost predicate Describes(t: Table, arrivals: seq<Arrival>) {
    forall k :: DescribesOne(t, arrivals, k)
  }

  /** Copies of one packet carry one send time. */
  predicate OneSendTime(arrivals: seq<Arrival>) {
    forall a, b :: a in arrivals && b in arrivals && a.number == b.number ==> a.sentAt == b.sentAt
  }

  lemma {:induction false} CountConcat(a: seq<Arrival>, b: seq<Arrival>, k: U64)
    ensures Count(a + b, k) == Count(a, k) + Count(b, k)
  {
    if b == [] {
      assert a + b == a;
    } else {
      assert (a + b)[..|a + b| - 1] == a + b[..|b| - 1];
      CountConcat(a, b[..|b| - 1], k);
    }
  }

  lemma {:induction false} FirstSentConcat(a: seq<Arrival>, b: seq<Arrival>, k: U64)
    requires Count(a, k) > 0 || Count(b, k) > 0
    ensures FirstSent(a + b, k) == if Count(a, k) > 0 then FirstSent(a, k) else FirstSent(b, k)
  {
    if b == [] {
      assert a + b == a;
    } else {
      var c := b[..|b| - 1];
      assert (a + b)[..|a + b| - 1] == a + c;
      CountConcat(a, c, k);
      if Count(a, k) > 0 || Count(c, k) > 0 {
        FirstSentConcat(a, c, k);
      }
    }
  }

  /** It is the send time of one of them. */
  lemma {:induction false} FirstSentIsSent(arrivals: seq<Arrival>, k: U64)
    requires Count(arrivals, k) > 0
    ensures exists a :: a in arrivals && a.number == k && a.sentAt == FirstSent(arrivals, k)
  {
    var before, x := arrivals[..|arrivals| - 1], arrivals[|arrivals| - 1];
    assert arrivals == before + [x] && x in arrivals;
    if Count(before, k) > 0 {
      FirstSentIsSent(before, k);
    }
  }

  lemma {:induction false} CountIsMembership(arrivals: seq<Arrival>, k: U64)
    ensures Count(arrivals, k) > 0 <==> exists a :: a in arrivals && a.number == k
  {
    if arrivals != [] {
      var before, x := arrivals[..|arrivals| - 1], arrivals[|arrivals| - 1];
      CountIsMembership(before, k);
      assert arrivals == before + [x];
      assert x in arrivals;
    }
  }

  function Numbers(arrivals: seq<Arrival>): set<U64> {
    set a | a in arrivals :: a.number
  }

  /** What a worker takes account of: the copies of a packet whose first one came
      when fewer than 500000 different packets had been seen. */
  function Counted(arrivals: seq<Arrival>): seq<Arrival> {
    if arrivals == [] then []
    else
      var before, x := arrivals[..|arrivals| - 1], arrivals[|arrivals| - 1];
      if x.number in Numbers(Counted(before)) || |Numbers(before)| < 500_000 then Counted(before) + [x] else Counted(before)
  }

  lemma NumbersMore(before: seq<Arrival>, x: Arrival)
    ensures Numbers(before + [x]) == Numbers(before) + {x.number}
    ensures |Numbers(before + [x])| == |Numbers(before)| + if x.number in Numbers(before) then 0 else 1
  {
    assert (before + [x])[|before|] == x;
    assert Numbers(before + [x]) == Numbers(before) + {x.number};
    OneMore(Numbers(before), x.number);
  }

  /** It takes account of everything exactly if no more than 500000 different
      packets reach it. */
  lemma {:induction false} AllCountedIff(arrivals: seq<Arrival>)
    ensures Counted(arrivals) == arrivals <==> |Numbers(arrivals)| <= 500_000
    ensures |Counted(arrivals)| <= |arrivals|
  {
    if arrivals != [] {
      var before, x := arrivals[..|arrivals| - 1], arrivals[|arrivals| - 1];
      assert arrivals == before + [x];
      NumbersMore(before, x);
      AllCountedIff(before);
      hide Numbers;
    }
  }

  /** The packets it takes account of. */
  lemma {:induction false} CountedNumbers(arrivals: seq<Arrival>, k: U64)
    ensures k in Numbers(Counted(arrivals)) <==> exists i :: FirstEnough(arrivals, i, k)
  {
    if arrivals == [] {
      NoNumbers();
    } else {
      var n := |arrivals| - 1;
      var before, x := arrivals[..n], arrivals[n];
      CountedNumbers(before, k);
      NumbersMore(Counted(before), x);
      hide Numbers;
      EnoughSoFar(arrivals, k);
      hide FirstEnough;
    }
  }

  lemma EnoughSoFar(arrivals: seq<Arrival>, k: U64)
    requires arrivals != []
    ensures var before, x := arrivals[..|arrivals| - 1], arrivals[|arrivals| - 1];
            (exists i :: FirstEnough(arrivals, i, k)) <==>
              (exists i :: FirstEnough(before, i, k)) || (x.number == k && |Numbers(before)| < 500_000)
  {
    hide Numbers;
    var n := |arrivals| - 1;
    var before := arrivals[..n];
    forall i | 0 <= i < n ensures FirstEnough(arrivals, i, k) <==> FirstEnough(before, i, k) {
      assert before[..i] == arrivals[..i];
    }
    if i :| FirstEnough(before, i, k) {
      assert FirstEnough(arrivals, i, k);
    }
    assert FirstEnough(arrivals, n, k) <==> arrivals[n].number == k && |Numbers(before)| < 500_000;
  }

  predicate FirstEnough(arrivals: seq<Arrival>, i: int, k: U64) {
    0 <= i < |arrivals| && arrivals[i].number == k && |Numbers(arrivals[..i])| < 500_000
  }

  lemma NoNumbers()
    ensures Numbers([]) == {}
  {
  }

  /** A table fills up no further than the numbers seen require. */
  predicate FullAsSeen(keys: set<U64>, seen: set<U64>) {
    && keys <= seen && |keys| <= 500_000 && (|keys| < 500_000 <==> |seen| < 500_000)
    && (|keys| < 500_000 ==> keys == seen)
  }

  lemma {:induction false} TableFull(arrivals: seq<Arrival>)
    ensures FullAsSeen(TrackAll(arrivals).Keys, Numbers(arrivals))
    ensures TrackAll(arrivals).Keys == Numbers(Counted(arrivals))
  {
    NoNumbers();
    hide Numbers, Track;
    if arrivals != [] {
      var n := |arrivals| - 1;
      var before, x := arrivals[..n], arrivals[n];
      TableFull(before);
      assert arrivals == before + [x];
      NumbersMore(before, x);
      NumbersMore(Counted(before), x);
      TrackKeys(TrackAll(before), x);
      KeysFull(TrackAll(before).Keys, Numbers(before), x.number);
      hide FullAsSeen;
    }
  }

  lemma TrackKeys(t: Table, x: Arrival)
    ensures Track(t, x).Keys == if x.number in t.Keys || |t.Keys| < 500_000 then t.Keys + {x.number} else t.Keys
  {
    assert |t| == |t.Keys|;
    if x.number in t {
      assert Track(t, x).Keys == t.Keys == t.Keys + {x.number};
    }
  }

  lemma KeysFull(keys: set<U64>, seen: set<U64>, k: U64)
    requires FullAsSeen(keys, seen)
    ensures FullAsSeen(if k in keys || |keys| < 500_000 then keys + {k} else keys, seen + {k})
    ensures |keys| < 500_000 <==> |seen| < 500_000
  {
    OneMore(keys, k);
    OneMore(seen, k);
  }

  lemma OneMore(s: set<U64>, k: U64)
    ensures |s + {k}| == |s| + if k in s then 0 else 1
    ensures k in s ==> s + {k} == s
  {
    if k in s {
      assert s + {k} == s;
    }
  }

  /** A worker's table, full or not, describes what it takes account of. */
  lemma {:induction false} WorkerDescribes(arrivals: seq<Arrival>)
    ensures Describes(TrackAll(arrivals), Counted(arrivals))
    ensures |TrackAll(arrivals)| <= 500_000
  {
    TableFull(arrivals);
    assert |TrackAll(arrivals)| == |TrackAll(arrivals).Keys|;
    hide DescribesOne, Numbers, Track, FullAsSeen;
    if arrivals == [] {
      NothingDescribed();
    } else {
      var n := |arrivals| - 1;
      var before, x := arrivals[..n], arrivals[n];
      TableFull(before);
      RoomLeft(before);
      WorkerDescribes(before);
      forall k ensures DescribesOne(TrackAll(arrivals), Counted(arrivals), k) {
        assert DescribesOne(TrackAll(before), Counted(before), k);
        if x.number in TrackAll(before) || |TrackAll(before)| < MAX_TRACKED_PKTS {
          TrackDescribes(TrackAll(before), Counted(before), x, k);
        } else {
          TrackRefuses(TrackAll(before), x);
        }
      }
    }
  }

  lemma RoomLeft(arrivals: seq<Arrival>)
    ensures |TrackAll(arrivals)| < 500_000 <==> |Numbers(arrivals)| < 500_000
  {
    TableFull(arrivals);
    assert |TrackAll(arrivals)| == |TrackAll(arrivals).Keys|;
  }

  lemma TrackRefuses(t: Table, x: Arrival)
    requires x.number !in t && |t| >= MAX_TRACKED_PKTS
    ensures Track(t, x) == t
  {
  }

  lemma NothingDescribed()
    ensures Describes(map[], [])
  {
  }

  lemma TrackDescribes(t: Table, before: seq<Arrival>, x: Arrival, k: U64)
    requires DescribesOne(t, before, k)
    requires x.number in t || |t| < MAX_TRACKED_PKTS
    ensures DescribesOne(Track(t, x), before + [x], k)
  {
    var after := before + [x];
    assert after[..|after| - 1] == before && x in after;
    CountIsMembership(before, k);
    if k in t {
      var a :| a in before && a.number == k && a.at == t[k].latest;
      assert a in after;
    }
  }

  lemma MergeDescribes(g: Table, t: Table, a: seq<Arrival>, b: seq<Arrival>, k: U64)
    requires DescribesOne(g, a, k) && DescribesOne(t, b, k)
    ensures DescribesOne(Merge(g, t), a + b, k)
  {
    CountConcat(a, b, k);
    CountIsMembership(a, k);
    CountIsMembership(b, k);
    if k in g || k in t {
      FirstSentConcat(a, b, k);
    }
    if k in g {
      var x :| x in a && x.number == k && x.at == g[k].latest;
      assert x in a + b;
    }
    if k in t {
      var y :| y in b && y.number == k && y.at == t[k].latest;
      assert y in a + b;
    }
  }

  function Flatten(shards: seq<seq<Arrival>>): seq<Arrival> {
    if shards == [] then [] else Flatten(shards[..|shards| - 1]) + shards[|shards| - 1]
  }

  function Tables(shards: seq<seq<Arrival>>): seq<Table> {
    seq(|shards|, i requires 0 <= i < |shards| => TrackAll(shards[i]))
  }

  function AllCounted(shards: seq<seq<Arrival>>): seq<Arrival> {
    if shards == [] then [] else AllCounted(shards[..|shards| - 1]) + Counted(shards[|shards| - 1])
  }

  /** Nothing is lost if no table fills up. */
  lemma {:induction false} NothingLost(shards: seq<seq<Arrival>>)
    requires forall i :: 0 <= i < |shards| ==> |Numbers(shards[i])| <= 500_000
    ensures AllCounted(shards) == Flatten(shards)
  {
    hide Numbers;
    if shards != [] {
      NothingLost(shards[..|shards| - 1]);
      AllCountedIff(shards[|shards| - 1]);
    }
  }

  /** Sharding does not matter: for any split of the arrivals over workers, the
      merged table describes all that the workers took account of. */
  lemma {:induction false} ShardsDescribeAll(shards: seq<seq<Arrival>>)
    ensures Describes(MergeAll(Tables(shards)), AllCounted(shards))
  {
    hide DescribesOne, Merge;
    if shards == [] {
      NothingDescribed();
    } else {
      var n := |shards| - 1;
      ShardsDescribeAll(shards[..n]);
      assert Tables(shards)[..n] == Tables(shards[..n]);
      WorkerDescribes(shards[n]);
      var g, t := MergeAll(Tables(shards[..n])), TrackAll(shards[n]);
      forall k ensures DescribesOne(Merge(g, t), AllCounted(shards), k) {
        assert DescribesOne(g, AllCounted(shards[..n]), k) && DescribesOne(t, Counted(shards[n]), k);
        MergeDescribes(g, t, AllCounted(shards[..n]), Counted(shards[n]), k);
      }
    }
  }

  lemma {:induction false} CountOfMultiset(a: seq<Arrival>, b: seq<Arrival>, k: U64)
    requires multiset(a) == multiset(b)
    ensures Count(a, k) == Count(b, k)
  {
    if a == [] {
      assert |multiset(b)| == 0;
      assert b == [];
    } else {
      var a', x := a[..|a| - 1], a[|a| - 1];
      assert a == a' + [x];
      assert x in multiset(b);
      var i :| 0 <= i < |b| && b[i] == x;
      RemoveOne(a', x, b, i);
      CountOfMultiset(a', b[..i] + b[i + 1..], k);
      CountConcat(b[..i], b[i + 1..], k);
      CountConcat(b[..i] + [x], b[i + 1..], k);
      CountConcat(b[..i], [x], k);
      assert [x][..0] == [];
    }
  }

  lemma RemoveOne<T>(a: seq<T>, x: T, b: seq<T>, i: nat)
    requires i < |b| && b[i] == x && multiset(a + [x]) == multiset(b)
    ensures multiset(a) == multiset(b[..i] + b[i + 1..])
    ensures b == b[..i] + [x] + b[i + 1..]
  {
    assert b == b[..i] + [x] + b[i + 1..];
    assert multiset(a) == multiset(a + [x]) - multiset{x};
  }

  /** With one send time per number, the order of arrival does not matter for
      it. */
  lemma SameFirstSent(a: seq<Arrival>, b: seq<Arrival>, k: U64)
    requires (forall x :: x in a <==> x in b) && OneSendTime(a) && Count(a, k) > 0 && Count(b, k) > 0
    ensures FirstSent(a, k) == FirstSent(b, k)
  {
    FirstSentIsSent(a, k);
    FirstSentIsSent(b, k);
  }

  /** A description is then unique up to the order of the arrivals. */
  lemma DescriptionUnique(s: Table, t: Table, a: seq<Arrival>, b: seq<Arrival>)
    requires multiset(a) == multiset(b) && OneSendTime(a) && Describes(s, a) && Describes(t, b)
    ensures s == t
  {
    assert forall x :: x in a <==> x in multiset(a);
    assert forall x :: x in b <==> x in multiset(b);
    forall k ensures k in s <==> k in t
             ensures k in s ==> s[k] == t[k]
    {
      CountOfMultiset(a, b, k);
      assert DescribesOne(s, a, k) && DescribesOne(t, b, k);
      if k in s {
        SameFirstSent(a, b, k);
        var x :| x in a && x.number == k && x.at == s[k].latest;
        var y :| y in b && y.number == k && y.at == t[k].latest;
        assert x in b && y in a;
      }
    }
  }

  /** Sharded aggregation equals global aggregation, whatever the split, the
      arrival order at each worker and the merge order: any two shardings in
      which the workers take account of the same arrivals merge to the same
      table, hence the same latencies. */
  lemma ShardingIrrelevant(one: seq<seq<Arrival>>, two: seq<seq<Arrival>>)
    requires multiset(AllCounted(one)) == multiset(AllCounted(two)) && OneSendTime(AllCounted(one))
    ensures MergeAll(Tables(one)) == MergeAll(Tables(two))
  {
    ShardsDescribeAll(one);
    ShardsDescribeAll(two);
    DescriptionUnique(MergeAll(Tables(one)), MergeAll(Tables(two)), AllCounted(one), AllCounted(two));
  }

  /** One worker's life: its arrivals in order. */
  method WorkerTable(arrivals: seq<Arrival>) returns (t: Table)
    ensures t == TrackAll(arrivals)
  {
    var worker := new Worker();
    for i := 0 to |arrivals|
      invariant worker.perPacket == TrackAll(arrivals[..i])
    {
      worker.Receive(arrivals[i]);
      assert arrivals[..i + 1][..i] == arrivals[..i];
    }
    assert arrivals[..|arrivals|] == arrivals;
    t := worker.perPacket;
  }

  /** The latency of packet `k`, over everything that arrived anywhere. */
  ghost predicate LastCopyLatency(all: seq<Arrival>, k: U64, latency: nat) {
    exists last :: last in all && last.number == k
      && (forall a :: a in all && a.number == k ==> a.at <= last.at)
      && latency == if last.at < FirstSent(all, k) then 0 else last.at - FirstSent(all, k)
  }

  ghost predicate Samples(order: seq<U64>, latencies: seq<nat>, all: seq<Arrival>, subs: nat) {
    && |latencies| == |order|
    && Distinct(order)
    && (forall k :: k in order <==> Count(all, k) == subs > 0)
    && forall i :: 0 <= i < |order| ==> LastCopyLatency(all, order[i], latencies[i])
  }

  /** What a trial must report, said of the arrivals alone: one sample for each
      packet all of whose `subs` copies arrived, at whichever workers, and no
      other; the sample is the last copy's arrival minus the first's send time,
      saturating at zero. */
  ghost predicate Reported(latencies: seq<nat>, all: seq<Arrival>, subs: nat) {
    exists order :: Samples(order, latencies, all, subs)
  }

  /** The whole trial, full tables included: workers, merge, filter. */
  method Report(shards: seq<seq<Arrival>>, subs: nat) returns (latencies: seq<nat>)
    ensures Reported(latencies, AllCounted(shards), subs)
  {
    hide AllCounted, LastCopyLatency, DescribesOne, Latency;
    var tables: seq<Table> := [];
    for i := 0 to |shards|
      invariant |tables| == i && forall j :: 0 <= j < i ==> tables[j] == TrackAll(shards[j])
    {
      var t := WorkerTable(shards[i]);
      tables := tables + [t];
    }
    assert tables == Tables(shards);
    var global := MergeTables(tables);
    ShardsDescribeAll(shards);
    latencies := Latencies(global, subs);
    ghost var order :| ListsLatencies(order, latencies, global, Complete(global, subs));
    forall k ensures k in order <==> Count(AllCounted(shards), k) == subs > 0
             ensures k in global ==> LastCopyLatency(AllCounted(shards), k, Latency(global[k]))
    {
      SampleIsLastCopy(global, AllCounted(shards), k);
    }
    assert Samples(order, latencies, AllCounted(shards), subs);
  }

  lemma SampleIsLastCopy(g: Table, all: seq<Arrival>, k: U64)
    requires DescribesOne(g, all, k)
    ensures k in g <==> Count(all, k) > 0
    ensures k in g ==> g[k].copies == Count(all, k) && LastCopyLatency(all, k, Latency(g[k]))
  {
  }

  /** The report is determined by which copies arrived, as a multiset: not by
      their order, the split over workers, or the order of any table. */
  lemma ReportUnique(one: seq<nat>, two: seq<nat>, a: seq<Arrival>, b: seq<Arrival>, subs: nat)
    requires multiset(a) == multiset(b) && OneSendTime(a)
    requires Reported(one, a, subs) && Reported(two, b, subs)
    ensures multiset(one) == multiset(two)
  {
    var o :| Samples(o, one, a, subs);
    var p :| Samples(p, two, b, subs);
    forall k ensures k in o <==> k in p {
      CountOfMultiset(a, b, k);
    }
    assert forall x :: x in a <==> x in multiset(a);
    assert forall x :: x in b <==> x in multiset(b);
    forall i, j | 0 <= i < |o| && 0 <= j < |p| && o[i] == p[j] ensures one[i] == two[j] {
      SameLatency(a, b, o[i], one[i], two[j]);
    }
    SameSamples(o, one, p, two);
  }

  lemma SameLatency(a: seq<Arrival>, b: seq<Arrival>, k: U64, x: nat, y: nat)
    requires OneSendTime(a) && (forall c :: c in a <==> c in b) && Count(a, k) > 0 && Count(b, k) > 0
    requires LastCopyLatency(a, k, x) && LastCopyLatency(b, k, y)
    ensures x == y
  {
    SameFirstSent(a, b, k);
  }

  /** Without one send time per number the split does decide: whichever shard is
      merged first supplies the send time. */
  lemma SplitMatters(k: U64)
    ensures var a, b := Arrival(k, 1, 5), Arrival(k, 2, 5);
            var one, two := MergeAll(Tables([[a], [b]])), MergeAll(Tables([[b], [a]]));
            && multiset(Flatten([[a], [b]])) == multiset(Flatten([[b], [a]]))
            && k in one && Latency(one[k]) == 4 && one[k].copies == 2
            && k in two && Latency(two[k]) == 3 && two[k].copies == 2
  {
    hide MergeAll, Tables, Flatten;
    var a, b := Arrival(k, 1, 5), Arrival(k, 2, 5);
    MergedPair(a, b);
    MergedPair(b, a);
    assert multiset([a, b]) == multiset{a, b} == multiset([b, a]);
  }

  lemma OneArrival(a: Arrival)
    ensures TrackAll([a]) == map[a.number := Entry(a.sentAt, a.at, 1)]
  {
    assert [a][..0] == [];
  }

  lemma TwoTables(s: Table, t: Table)
    ensures MergeAll([s, t]) == Merge(s, t)
  {
    assert [s, t][..1] == [s] && [s][..0] == [];
    assert MergeAll([s]) == Merge(map[], s) == s;
  }

  lemma MergedPair(a: Arrival, b: Arrival)
    requires a.number == b.number
    ensures MergeAll(Tables([[a], [b]])) == map[a.number := Entry(a.sentAt, Max(b.at, a.at), 2)]
    ensures Flatten([[a], [b]]) == [a, b]
  {
    var one, two := [[a]], [[a], [b]];
    assert two[..1] == one && one[..0] == [];
    assert [] + [a] == [a] && [a] + [b] == [a, b];
    assert Flatten(one) == [a];
    hide Flatten, TrackAll, MergeAll;
    assert Tables(two) == [TrackAll([a]), TrackAll([b])];
    hide Tables;
    TwoTables(TrackAll([a]), TrackAll([b]));
    OneArrival(a);
    OneArrival(b);
  }

  predicate Distinct<T(==)>(s: seq<T>) {
    forall i, j :: 0 <= i < j < |s| ==> s[i] != s[j]
  }

  function Without<T>(s: seq<T>, m: nat): seq<T>
    requires m < |s|
  {
    s[..m] + s[m + 1..]
  }

  lemma WithoutOne<T>(s: seq<T>, m: nat)
    requires m < |s| && Distinct(s)
    ensures Distinct(Without(s, m))
    ensures forall k :: k in Without(s, m) <==> k in s && k != s[m]
  {
    forall k | k in s && k != s[m] ensures k in Without(s, m) {
      var i :| 0 <= i < |s| && s[i] == k;
      assert Without(s, m)[if i < m then i else i - 1] == k;
    }
  }

  lemma WithoutCounts<T>(s: seq<T>, m: nat)
    requires m < |s|
    ensures multiset(s) == multiset(Without(s, m)) + multiset{s[m]}
  {
    assert s == s[..m] + [s[m]] + s[m + 1..];
  }

  /** Two listings of one set of packets that agree packet by packet. */
  predicate Agree(o: seq<U64>, one: seq<nat>, p: seq<U64>, two: seq<nat>) {
    && |one| == |o| && |two| == |p|
    && forall i, j :: 0 <= i < |o| && 0 <= j < |p| && o[i] == p[j] ==> one[i] == two[j]
  }

  lemma AgreeWithout(o: seq<U64>, one: seq<nat>, p: seq<U64>, two: seq<nat>, n: nat, m: nat)
    requires Agree(o, one, p, two) && n < |o| && m < |p|
    ensures Agree(Without(o, n), Without(one, n), Without(p, m), Without(two, m))
  {
    forall i, j | 0 <= i < |o| - 1 && 0 <= j < |p| - 1 && Without(o, n)[i] == Without(p, m)[j]
      ensures Without(one, n)[i] == Without(two, m)[j]
    {
      var i', j' := if i < n then i else i + 1, if j < m then j else j + 1;
      assert o[i'] == p[j'];
    }
  }

  lemma SomeMember<T>(s: seq<T>)
    ensures s != [] ==> s[0] in s && exists k :: k in s
  {
    if s != [] {
      assert s[0] in s;
    }
  }

  lemma {:induction false} SameSamples(o: seq<U64>, one: seq<nat>, p: seq<U64>, two: seq<nat>)
    requires Agree(o, one, p, two) && Distinct(o) && Distinct(p) && forall k :: k in o <==> k in p
    ensures multiset(one) == multiset(two)
    decreases |o|
  {
    SomeMember(o);
    SomeMember(p);
    if o != [] {
      var m :| 0 <= m < |p| && p[m] == o[0];
      assert one[0] == two[m];
      WithoutOne(o, 0);
      WithoutOne(p, m);
      AgreeWithout(o, one, p, two, 0, m);
      WithoutCounts(one, 0);
      WithoutCounts(two, m);
      hide Agree, Distinct, Without;
      SameSamples(Without(o, 0), Without(one, 0), Without(p, m), Without(two, m));
    }
  }
}
