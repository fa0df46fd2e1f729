/** `find_ndr`: binary search for the no-drop rate, with each trial's outcome
    taken from an oracle. */
module Ndr {
  import opened Division

  datatype Trial = Trial(rate: nat, passed: bool)

  function Pow2(n: nat): (r: nat)
    ensures r > 0
  {
    if n == 0 then 1 else 2 * Pow2(n - 1)
  }

  /** The gap left after `n` halvings that round up. */
  function Halved(gap: nat, n: nat): nat {
    if n == 0 then gap else (Halved(gap, n - 1) + 1) / 2
  }

  function CeilDiv(a: nat, b: nat): nat
    requires b > 0
  {
    (a + b - 1) / b
  }

  /** Rounding up at every halving is rounding up once. */
  lemma {:induction false} HalvedIsCeil(gap: nat, n: nat)
    ensures Halved(gap, n) == CeilDiv(gap, Pow2(n))
  {
    if n > 0 {
      HalvedIsCeil(gap, n - 1);
      HalfOfCeil(gap, Pow2(n - 1));
    }
  }

  lemma HalfOfCeil(a: nat, b: nat)
    requires b > 0
    ensures (CeilDiv(a, b) + 1) / 2 == CeilDiv(a, 2 * b)
  {
    var q, r := (a + b - 1) / b, (a + b - 1) % b;
    var h := (q + 1) / 2;
    if q % 2 == 0 {
      assert q == 2 * h;
      TwoHalves(b, h, q);
      QuotientAndRemainder(a + 2 * b - 1, 2 * b, h, r + b);
    } else {
      assert q + 1 == 2 * h;
      TwoHalves(b, h, q + 1);
      assert b * (q + 1) == b * q + b;
      QuotientAndRemainder(a + 2 * b - 1, 2 * b, h, r);
    }
  }

  lemma TwoHalves(b: nat, h: nat, q: nat)
    requires q == 2 * h
    ensures b * q == 2 * b * h
  {
  }

  /** Trials pass up to some rate and fail above it. */
  predicate Monotone(log: seq<Trial>, threshold: nat) {
    forall i :: 0 <= i < |log| ==> (log[i].passed <==> log[i].rate <= threshold)
  }

  datatype Range = Range(lo: nat, hi: nat)

  /** The bounds left by the outcomes so far: each trial replaces one of them. */
  function Bounds(minPps: nat, maxPps: nat, log: seq<Trial>): Range {
    if log == [] then Range(minPps, maxPps)
    else
      var r, t := Bounds(minPps, maxPps, log[..|log| - 1]), log[|log| - 1];
      if t.passed then Range(t.rate, r.hi) else Range(r.lo, t.rate)
  }

  function Midpoint(r: Range): nat {
    if r.lo <= r.hi then r.lo + (r.hi - r.lo) / 2 else r.lo
  }

  /** Whether there is another trial: a range that is not empty, a rate above
      zero, and after the first trial a gap of more than 100. */
  predicate GoesOn(r: Range, trials: nat) {
    r.lo < r.hi && Midpoint(r) > 0 && (trials > 0 ==> r.hi - r.lo > 100)
  }

  /** Every trial is at the midpoint of the bounds the earlier ones left, and
      there was reason to make it. */
  ghost predicate Traced(minPps: nat, maxPps: nat, outcome: seq<bool>, log: seq<Trial>) {
    |log| <= |outcome| && forall i :: 0 <= i < |log| ==> TrialAt(minPps, maxPps, outcome, log, i)
  }

  ghost predicate TrialAt(minPps: nat, maxPps: nat, outcome: seq<bool>, log: seq<Trial>, i: nat)
    requires i < |log| <= |outcome|
  {
    var r := Bounds(minPps, maxPps, log[..i]);
    log[i] == Trial(Midpoint(r), outcome[i]) && GoesOn(r, i)
  }

  /** What the bounds have to do with the trials. */
  ghost predicate Bounded(minPps: nat, maxPps: nat, log: seq<Trial>, r: Range) {
    && minPps <= r.lo && r.hi <= maxPps && (minPps <= maxPps ==> r.lo <= r.hi)
    && (forall t :: t in log ==> minPps <= t.rate < maxPps && (t.passed ==> t.rate <= r.lo))
    && (r.lo == minPps || Trial(r.lo, true) in log)
    && (r.hi == maxPps || Trial(r.hi, false) in log)
    && (minPps <= maxPps ==> r.hi - r.lo <= Halved(maxPps - minPps, |log|))
  }

  lemma {:induction false} BoundsHold(minPps: nat, maxPps: nat, outcome: seq<bool>, log: seq<Trial>)
    requires Traced(minPps, maxPps, outcome, log)
    ensures Bounded(minPps, maxPps, log, Bounds(minPps, maxPps, log))
  {
    hide Halved;
    if log == [] {
      HalvedStep(if minPps <= maxPps then maxPps - minPps else 0, 0);
    } else {
      var n := |log| - 1;
      var before := log[..n];
      assert log == before + [log[n]];
      forall i | 0 <= i < n ensures TrialAt(minPps, maxPps, outcome, before, i) {
        assert TrialAt(minPps, maxPps, outcome, log, i) && before[..i] == log[..i];
      }
      BoundsHold(minPps, maxPps, outcome, before);
      assert TrialAt(minPps, maxPps, outcome, log, n);
      HalvedStep(maxPps - minPps, n);
    }
  }

  lemma TracedMore(minPps: nat, maxPps: nat, outcome: seq<bool>, log: seq<Trial>)
    requires Traced(minPps, maxPps, outcome, log) && |log| < |outcome| && GoesOn(Bounds(minPps, maxPps, log), |log|)
    ensures var r := Bounds(minPps, maxPps, log);
            var more := log + [Trial(Midpoint(r), outcome[|log|])];
            && Traced(minPps, maxPps, outcome, more)
            && Bounds(minPps, maxPps, more) == if outcome[|log|] then Range(Midpoint(r), r.hi) else Range(r.lo, Midpoint(r))
  {
    var n := |log|;
    var more := log + [Trial(Midpoint(Bounds(minPps, maxPps, log)), outcome[n])];
    assert more[..n] == log;
    hide Bounds;
    forall i | 0 <= i <= n ensures TrialAt(minPps, maxPps, outcome, more, i) {
      if i < n {
        assert TrialAt(minPps, maxPps, outcome, log, i) && more[..i] == log[..i];
      }
    }
  }

  /** Every rate tried is the midpoint of the bounds the earlier outcomes left,
      and the search ends exactly when they leave nothing to try, which takes no
      more trials than bring the gap down to 100.  The result is the initial
      lower bound or a rate whose trial passed, and every rate tried lies in the
      initial range.  When passing is monotone with a threshold inside the range,
      the result is at most the threshold and within
      max(100, ceil(gap / 2^iterations)) of it. */
  method FindNdr(minPps: nat, maxPps: nat, iterations: nat, outcome: seq<bool>)
    returns (lo: nat, log: seq<Trial>)
    requires |outcome| >= iterations
    ensures |log| <= iterations && Traced(minPps, maxPps, outcome, log)
    ensures |log| < iterations ==> !GoesOn(Bounds(minPps, maxPps, log), |log|)
    ensures |log| > 1 && minPps <= maxPps ==> CeilDiv(maxPps - minPps, Pow2(|log| - 1)) > 100
    ensures lo == Bounds(minPps, maxPps, log).lo
    ensures lo == minPps || Trial(lo, true) in log
    ensures forall t :: t in log ==> minPps <= t.rate < maxPps && (t.passed ==> t.rate <= lo)
    ensures forall threshold: nat :: minPps <= threshold < maxPps && Monotone(log, threshold) ==>
              var bound := CeilDiv(maxPps - minPps, Pow2(iterations));
              lo <= threshold < lo + (if bound > 100 then bound else 100)
  {
    hide Halved, CeilDiv, Pow2, Monotone, Bounds, Traced;
    lo, log := minPps, [];
    var hi: nat := maxPps;
    NoTrials(minPps, maxPps, outcome);
    var i := 0;
    while i < iterations
      invariant i == |log| <= iterations && Traced(minPps, maxPps, outcome, log)
      invariant Bounds(minPps, maxPps, log) == Range(lo, hi)
      invariant i > 0 ==> hi - lo > 100
    {
      if hi <= lo {
        break;
      }
      var mid := lo + (hi - lo) / 2;
      if mid == 0 {
        break;
      }
      TracedMore(minPps, maxPps, outcome, log);
      var pass := outcome[i];
      log := log + [Trial(mid, pass)];
      if pass {
        lo := mid;
      } else {
        hi := mid;
      }
      i := i + 1;
      if (if hi > lo then hi - lo else 0) <= 100 {
        break;
      }
    }
    Found(minPps, maxPps, outcome, log, lo, hi, iterations);
    NoIdleTrial(minPps, maxPps, outcome, log);
  }

  /** What the bounds at the end say. */
  lemma Found(minPps: nat, maxPps: nat, outcome: seq<bool>, log: seq<Trial>, lo: nat, hi: nat, iterations: nat)
    requires Traced(minPps, maxPps, outcome, log) && |log| <= iterations
    requires Bounds(minPps, maxPps, log) == Range(lo, hi)
    requires |log| < iterations ==> !GoesOn(Range(lo, hi), |log|)
    ensures lo == minPps || Trial(lo, true) in log
    ensures forall t :: t in log ==> minPps <= t.rate < maxPps && (t.passed ==> t.rate <= lo)
    ensures forall threshold: nat :: minPps <= threshold < maxPps && Monotone(log, threshold) ==>
              var bound := CeilDiv(maxPps - minPps, Pow2(iterations));
              lo <= threshold < lo + (if bound > 100 then bound else 100)
  {
    hide Halved, CeilDiv, Pow2, Monotone, Bounds, Traced;
    BoundsHold(minPps, maxPps, outcome, log);
    forall threshold: nat | minPps <= threshold < maxPps && Monotone(log, threshold)
      ensures var bound := CeilDiv(maxPps - minPps, Pow2(iterations));
              lo <= threshold < lo + (if bound > 100 then bound else 100)
    {
      Within(minPps, maxPps, log, lo, hi, iterations, threshold);
    }
  }

  lemma NoIdleTrial(minPps: nat, maxPps: nat, outcome: seq<bool>, log: seq<Trial>)
    requires Traced(minPps, maxPps, outcome, log)
    ensures |log| > 1 && minPps <= maxPps ==> CeilDiv(maxPps - minPps, Pow2(|log| - 1)) > 100
  {
    hide Halved, CeilDiv, Pow2, Bounds;
    if |log| > 1 && minPps <= maxPps {
      var n := |log| - 1;
      var before := log[..n];
      forall i | 0 <= i < n ensures TrialAt(minPps, maxPps, outcome, before, i) {
        assert TrialAt(minPps, maxPps, outcome, log, i) && before[..i] == log[..i];
      }
      BoundsHold(minPps, maxPps, outcome, before);
      HalvedIsCeil(maxPps - minPps, n);
      assert TrialAt(minPps, maxPps, outcome, log, n);
    }
  }

  lemma NoTrials(minPps: nat, maxPps: nat, outcome: seq<bool>)
    ensures Traced(minPps, maxPps, outcome, []) && Bounds(minPps, maxPps, []) == Range(minPps, maxPps)
  {
  }

  lemma Within(minPps: nat, maxPps: nat, log: seq<Trial>, lo: nat, hi: nat, iterations: nat, threshold: nat)
    requires Bounded(minPps, maxPps, log, Range(lo, hi)) && |log| <= iterations
    requires |log| < iterations ==> !GoesOn(Range(lo, hi), |log|)
    requires minPps <= threshold < maxPps && Monotone(log, threshold)
    ensures var bound := CeilDiv(maxPps - minPps, Pow2(iterations));
            lo <= threshold < lo + (if bound > 100 then bound else 100)
  {
    hide Halved, CeilDiv, Pow2, Monotone;
    HalvedIsCeil(maxPps - minPps, iterations);
    InBounds(log, minPps, maxPps, lo, hi, threshold);
  }

  lemma HalvedStep(gap: nat, n: nat)
    ensures Halved(gap, 0) == gap && Halved(gap, n + 1) == (Halved(gap, n) + 1) / 2
  {
  }

  lemma InBounds(log: seq<Trial>, minPps: nat, maxPps: nat, lo: nat, hi: nat, threshold: nat)
    requires minPps <= threshold < maxPps && Monotone(log, threshold)
    requires lo == minPps || Trial(lo, true) in log
    requires hi == maxPps || Trial(hi, false) in log
    ensures lo <= threshold < hi
  {
    if Trial(lo, true) in log {
      var i :| 0 <= i < |log| && log[i] == Trial(lo, true);
    }
    if Trial(hi, false) in log {
      var i :| 0 <= i < |log| && log[i] == Trial(hi, false);
    }
  }
}
