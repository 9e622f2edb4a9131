/** The round-trip estimator and the retransmission timeout it sets. Times are seconds as reals. */
module Rtt {

  const MIN_RTO: real := 0.25
  const MAX_RTO: real := 3.0
  const INITIAL_RTO: real := 1.0

  /** Smoothed round-trip time and its variation; a smoothed time of zero means no sample yet. */
  datatype Estimate = Estimate(srtt: real, rttvar: real)

  const NO_SAMPLE: Estimate := Estimate(0.0, 0.0)

  function Abs(x: real): (a: real)
    ensures a >= 0.0 && (a == x || a == -x)
  {
    if x < 0.0 then -x else x
  }

  /** One sample. The variation is taken from the already updated smoothed time. */
  function Updated(e: Estimate, r: real): Estimate {
    if e.srtt == 0.0 then Estimate(r, r / 2.0)
    else
      var srtt := 0.875 * e.srtt + 0.125 * r;
      Estimate(srtt, 0.75 * e.rttvar + 0.25 * Abs(srtt - r))
  }

  function Unclamped(e: Estimate): real {
    e.srtt + 4.0 * e.rttvar
  }

  function Clamp(x: real): (c: real)
    ensures MIN_RTO <= c <= MAX_RTO
  {
    if x < MIN_RTO then MIN_RTO else if x > MAX_RTO then MAX_RTO else x
  }

  function TimeoutOf(e: Estimate): (rto: real)
    ensures MIN_RTO <= rto <= MAX_RTO
  {
    if e.srtt == 0.0 then INITIAL_RTO else Clamp(Unclamped(e))
  }

  /** With a sample taken, the timeout is nearer to the unclamped sum than any other legal value. */
  lemma TimeoutIsNearest(e: Estimate, x: real)
    requires e.srtt != 0.0 && 0.25 <= x <= 3.0
    ensures 0.25 <= TimeoutOf(e) <= 3.0
    ensures x != TimeoutOf(e) ==> Abs(TimeoutOf(e) - Unclamped(e)) < Abs(x - Unclamped(e))
  {
  }

  class RttStats {
    var srtt: real
    var rttvar: real

    constructor ()
      ensures Value() == NO_SAMPLE
    {
      srtt, rttvar := 0.0, 0.0;
    }

    function Value(): Estimate
      reads this
    {
      Estimate(srtt, rttvar)
    }

    method Update(rtt: real)
      modifies this
      ensures Value() == Updated(old(Value()), rtt)
    {
      if srtt == 0.0 {
        srtt := rtt;
        rttvar := rtt / 2.0;
      } else {
        srtt := 0.875 * srtt + 0.125 * rtt;
        var diff := if srtt - rtt < 0.0 then rtt - srtt else srtt - rtt;
        rttvar := 0.75 * rttvar + 0.25 * diff;
      }
    }

    method Rto() returns (rto: real)
      ensures rto == TimeoutOf(Value())
    {
      if srtt == 0.0 {
        return INITIAL_RTO;
      }
      var seconds := srtt + 4.0 * rttvar;
      rto := if seconds < MIN_RTO then MIN_RTO else if seconds > MAX_RTO then MAX_RTO else seconds;
    }
  }

  // ---------- Runs of samples ----------

  /** The estimate after a run of samples, oldest first. */
  function After(e: Estimate, samples: seq<real>): Estimate {
    if samples == [] then e
    else Updated(After(e, samples[..|samples| - 1]), samples[|samples| - 1])
  }

  predicate AllWithin(samples: seq<real>, low: real, high: real) {
    forall i | 0 <= i < |samples| :: low <= samples[i] <= high
  }

  /** Over any run of non-negative samples between `low` and `high` the smoothed time stays between
      them, the variation stays below 7/8 of the largest, and so the unclamped timeout stays between
      the smoothed time and four and a half times the largest sample. */
  lemma {:induction false} Bounded(samples: seq<real>, low: real, high: real)
    requires samples != [] && 0.0 <= low && AllWithin(samples, low, high)
    ensures var e := After(NO_SAMPLE, samples);
            && low <= e.srtt <= high
            && 0.0 <= e.rttvar <= 0.875 * high
            && e.srtt <= Unclamped(e) <= 4.5 * high
  {
    var init, r := samples[..|samples| - 1], samples[|samples| - 1];
    if init == [] {
    } else {
      Bounded(init, low, high);
    }
  }

  /** The timeout stays at its initial second for as long as every sample is zero, and no longer. */
  lemma {:induction false} NoSampleExactlyZeros(samples: seq<real>)
    requires forall i | 0 <= i < |samples| :: samples[i] >= 0.0
    ensures After(NO_SAMPLE, samples).srtt >= 0.0
    ensures After(NO_SAMPLE, samples).srtt == 0.0 <==> forall i | 0 <= i < |samples| :: samples[i] == 0.0
    ensures After(NO_SAMPLE, samples).srtt == 0.0 ==> TimeoutOf(After(NO_SAMPLE, samples)) == 1.0
  {
    if samples == [] {
    } else {
      NoSampleExactlyZeros(samples[..|samples| - 1]);
    }
  }

  // ---------- Against sections 2.2 and 2.3 of RFC 6298 ----------

  /** The estimator of the RFC: the variation is taken from the smoothed time before the update. */
  function RfcAfter(samples: seq<real>): Estimate {
    if samples == [] then NO_SAMPLE
    else
      var r := samples[|samples| - 1];
      if |samples| == 1 then Estimate(r, r / 2.0)
      else RfcUpdated(RfcAfter(samples[..|samples| - 1]), r)
  }

  /** The RFC's rule for a sample that is not the first. */
  function RfcUpdated(e: Estimate, r: real): Estimate {
    Estimate(0.875 * e.srtt + 0.125 * r, 0.75 * e.rttvar + 0.25 * Abs(e.srtt - r))
  }

  /** Both estimators saw only positive samples, and the first stays within an eighth of the second. */
  predicate Close(e: Estimate, f: Estimate) {
    && e.srtt == f.srtt > 0.0
    && 0.875 * f.rttvar <= e.rttvar <= f.rttvar
  }

  lemma CloseOneMore(e: Estimate, f: Estimate, r: real)
    requires Close(e, f) && r > 0.0
    ensures Close(Updated(e, r), RfcUpdated(f, r))
  {
    assert 0.875 * e.srtt + 0.125 * r - r == 0.875 * (e.srtt - r);
  }

  lemma CloseTimeouts(e: Estimate, f: Estimate)
    requires Close(e, f)
    ensures 0.875 * Unclamped(f) <= Unclamped(e) <= Unclamped(f)
  {
  }

  /** On the same positive samples the smoothed time is the RFC's after every one, and variation and
      unclamped timeout lie between 7/8 of the RFC's and the RFC's. */
  lemma {:induction false} CloseToRfc(samples: seq<real>)
    requires forall i | 0 <= i < |samples| :: samples[i] > 0.0
    ensures var e, f := After(NO_SAMPLE, samples), RfcAfter(samples);
            && e.srtt == f.srtt >= 0.0 && (samples != [] ==> e.srtt > 0.0)
            && 0.875 * f.rttvar <= e.rttvar <= f.rttvar
            && 0.875 * Unclamped(f) <= Unclamped(e) <= Unclamped(f)
  {
    if samples == [] {
    } else {
      hide Updated, RfcUpdated, Unclamped;
      var init, r := samples[..|samples| - 1], samples[|samples| - 1];
      CloseToRfc(init);
      if init == [] {
        FirstSample(r);
      } else {
        CloseOneMore(After(NO_SAMPLE, init), RfcAfter(init), r);
      }
      CloseTimeouts(After(NO_SAMPLE, samples), RfcAfter(samples));
    }
  }

  lemma FirstSample(r: real)
    requires r > 0.0
    ensures Updated(NO_SAMPLE, r) == Estimate(r, r / 2.0) && Close(Estimate(r, r / 2.0), Estimate(r, r / 2.0))
  {
  }

  /** One more sample keeps two estimators with the same smoothed time in agreement exactly when they
      agreed on the variation and the sample is that smoothed time. */
  lemma AgreeOneMore(e: Estimate, f: Estimate, r: real)
    requires e.srtt == f.srtt > 0.0 && e.rttvar <= f.rttvar
    ensures Updated(e, r) == RfcUpdated(f, r) <==> e.rttvar == f.rttvar && r == e.srtt
  {
    assert 0.875 * e.srtt + 0.125 * r - r == 0.875 * (e.srtt - r);
  }

  lemma AllEqualOneMore(samples: seq<real>)
    requires |samples| > 1
    ensures AllWithin(samples, samples[0], samples[0])
       <==> AllWithin(samples[..|samples| - 1], samples[0], samples[0]) && samples[|samples| - 1] == samples[0]
  {
  }

  /** The estimator agrees with the RFC's over a run of positive samples exactly when the samples are
      all equal: any change between them leaves a variation too small, for good. */
  lemma {:induction false} DiffersFromRfc(samples: seq<real>)
    requires samples != [] && forall i | 0 <= i < |samples| :: samples[i] > 0.0
    ensures After(NO_SAMPLE, samples) == RfcAfter(samples) <==> AllWithin(samples, samples[0], samples[0])
  {
    hide AllWithin;
    var init, r := samples[..|samples| - 1], samples[|samples| - 1];
    CloseToRfc(samples);
    if |samples| == 1 {
      assert AllWithin(samples, r, r) by { OneSample(samples); }
      assert After(NO_SAMPLE, init) == NO_SAMPLE;
    } else {
      CloseToRfc(init);
      DiffersFromRfc(init);
      AllEqualOneMore(samples);
      AgreeOneMore(After(NO_SAMPLE, init), RfcAfter(init), r);
      if AllWithin(init, samples[0], samples[0]) {
        EqualSamplesMean(init);
      }
    }
  }

  lemma OneSample(samples: seq<real>)
    requires |samples| == 1
    ensures AllWithin(samples, samples[0], samples[0])
  {
  }

  /** Equal samples are their own smoothed time. */
  lemma EqualSamplesMean(samples: seq<real>)
    requires samples != [] && samples[0] > 0.0 && AllWithin(samples, samples[0], samples[0])
    ensures After(NO_SAMPLE, samples).srtt == samples[0]
  {
    Bounded(samples, samples[0], samples[0]);
  }

  // ---------- Convergence ----------

  function Repeat(r: real, k: nat): (s: seq<real>)
    ensures |s| == k
  {
    if k == 0 then [] else Repeat(r, k - 1) + [r]
  }

  /** x multiplied k times by 7/8. */
  function Eighths(k: nat, x: real): real {
    if k == 0 then x else 0.875 * Eighths(k - 1, x)
  }

  /** x multiplied k times by 3/4. */
  function Quarters(k: nat, x: real): real {
    if k == 0 then x else 0.75 * Quarters(k - 1, x)
  }

  lemma AfterRepeat(e: Estimate, r: real, k: nat)
    requires k > 0
    ensures After(e, Repeat(r, k)) == Updated(After(e, Repeat(r, k - 1)), r)
  {
    assert Repeat(r, k)[..k - 1] == Repeat(r, k - 1);
  }

  /** How far the smoothed time is from r. */
  function Distance(e: Estimate, r: real): real {
    e.srtt - r
  }

  /** What the variation exceeds 7/4 of that distance by. */
  function Excess(e: Estimate, r: real): real {
    e.rttvar - 1.75 * Abs(Distance(e, r))
  }

  lemma OneMoreEqualSample(e: Estimate, r: real)
    requires e.srtt > 0.0 && r > 0.0
    ensures var f := Updated(e, r);
            && f.srtt > 0.0
            && Distance(f, r) == 0.875 * Distance(e, r)
            && Excess(f, r) == 0.75 * Excess(e, r)
  {
  }

  /** The closed form of k equal samples: the distance to r shrinks by 7/8 a sample, and what the
      variation exceeds 7/4 of that distance by shrinks by 3/4 a sample. */
  lemma {:induction false} ClosedForm(e: Estimate, r: real, k: nat)
    requires e.srtt > 0.0 && r > 0.0
    ensures var f := After(e, Repeat(r, k));
            && f.srtt > 0.0
            && Distance(f, r) == Eighths(k, Distance(e, r))
            && Excess(f, r) == Quarters(k, Excess(e, r))
  {
    if k == 0 {
    } else {
      ClosedForm(e, r, k - 1);
      AfterRepeat(e, r, k);
      OneMoreEqualSample(After(e, Repeat(r, k - 1)), r);
    }
  }

  /** Shrinking keeps signs and sums, and shrinking by 3/4 is the faster of the two. */
  lemma {:induction false} ShrinkingIsLinear(k: nat, x: real, y: real)
    ensures Abs(Eighths(k, x)) == Eighths(k, Abs(x))
    ensures 0.0 <= Abs(Quarters(k, y)) <= Eighths(k, Abs(y))
    ensures 8.0 * Eighths(k, Abs(x)) + 4.0 * Eighths(k, Abs(y)) == Eighths(k, 8.0 * Abs(x) + 4.0 * Abs(y))
  {
    if k == 0 {
    } else {
      ShrinkingIsLinear(k - 1, x, y);
    }
  }

  /** What shrinks by 7/8 vanishes: Bernoulli's inequality for 8/7. */
  lemma {:induction false} Vanishes(k: nat, x: real)
    requires x >= 0.0
    ensures 0.0 <= Eighths(k, x) && Eighths(k, x) * (7.0 + k as real) <= 7.0 * x
  {
    if k == 0 {
    } else {
      Vanishes(k - 1, x);
      BernoulliStep(Eighths(k - 1, x), k as real, x);
    }
  }

  lemma BernoulliStep(p: real, n: real, x: real)
    requires p >= 0.0 && n >= 1.0 && p * (6.0 + n) <= 7.0 * x
    ensures 0.875 * p * (7.0 + n) <= 7.0 * x
  {
    assert 0.875 * p * (7.0 + n) == 0.875 * (p * (6.0 + n)) + 0.875 * p;
    assert p * (6.0 + n) >= 7.0 * p;
  }

  function Spread(e: Estimate, r: real): (s: real)
    ensures s >= 0.0
  {
    8.0 * Abs(Distance(e, r)) + 4.0 * Abs(Excess(e, r))
  }

  /** The timeout exceeds the sample by at most a vanishing spread. */
  lemma TimeoutNearSample(e: Estimate, r: real, k: nat)
    requires e.srtt > 0.0 && r > 0.0
    ensures Unclamped(After(e, Repeat(r, k))) <= r + Eighths(k, Spread(e, r))
  {
    hide After, Updated, Eighths, Quarters, Repeat;
    ClosedForm(e, r, k);
    ShrinkingIsLinear(k, Distance(e, r), Excess(e, r));
  }

  /** Enough samples for a spread to shrink below a margin. */
  function Needed(spread: real, margin: real): nat
    requires spread >= 0.0 && margin > 0.0
  {
    (7.0 * spread / margin).Floor + 1
  }

  lemma NeededIsEnough(spread: real, margin: real)
    requires spread >= 0.0 && margin > 0.0
    ensures Needed(spread, margin) as real * margin >= 7.0 * spread
  {
    var x, n := 7.0 * spread / margin, Needed(spread, margin) as real;
    assert x * margin == 7.0 * spread;
    assert n >= x;
    assert (n - x) * margin >= 0.0;
  }

  lemma SmallEnough(p: real, k: real, n: real, spread: real, margin: real)
    requires k >= n >= 0.0 && margin > 0.0
    requires p * (7.0 + k) <= 7.0 * spread <= n * margin
    ensures p <= margin
  {
    assert n * margin <= k * margin;
    assert p * (7.0 + k) <= margin * (7.0 + k);
  }

  lemma SpreadVanishes(spread: real, margin: real, k: nat)
    requires spread >= 0.0 && margin > 0.0 && k >= Needed(spread, margin)
    ensures Eighths(k, spread) <= margin
  {
    Vanishes(k, spread);
    NeededIsEnough(spread, margin);
    SmallEnough(Eighths(k, spread), k as real, Needed(spread, margin) as real, spread, margin);
  }

  lemma FloorReached(e: Estimate, r: real, k: nat)
    requires e.srtt > 0.0 && 0.0 < r < MIN_RTO && Eighths(k, Spread(e, r)) <= MIN_RTO - r
    ensures TimeoutOf(After(e, Repeat(r, k))) == MIN_RTO
  {
    ClosedForm(e, r, k);
    TimeoutNearSample(e, r, k);
  }

  /** From n equal samples on, the timeout is at its floor. */
  ghost predicate AtFloorFrom(e: Estimate, r: real, n: nat) {
    forall k: nat | k >= n :: TimeoutOf(After(e, Repeat(r, k))) == MIN_RTO
  }

  /** The first of several equal samples does all the difference the lack of one makes. */
  lemma {:induction false} AfterFirstSample(e: Estimate, r: real, k: nat)
    requires e.srtt == 0.0 && k > 0
    ensures After(e, Repeat(r, k)) == After(Estimate(r, r / 2.0), Repeat(r, k - 1))
  {
    AfterRepeat(e, r, k);
    if k == 1 {
      assert Repeat(r, 0) == [];
    } else {
      AfterFirstSample(e, r, k - 1);
      AfterRepeat(Estimate(r, r / 2.0), r, k - 1);
    }
  }

  /** From any estimate, the one without a sample included, enough equal samples below 250 ms bring the
      timeout to its floor, for good. */
  lemma ReachesFloor(e: Estimate, r: real)
    requires e.srtt >= 0.0 && 0.0 < r < MIN_RTO
    ensures exists n: nat :: AtFloorFrom(e, r, n)
  {
    if e.srtt > 0.0 {
      ReachesFloorFromSample(e, r);
    } else {
      var f := Estimate(r, r / 2.0);
      ReachesFloorFromSample(f, r);
      var n: nat :| AtFloorFrom(f, r, n);
      forall k: nat | k >= n + 1
        ensures TimeoutOf(After(e, Repeat(r, k))) == MIN_RTO
      {
        AfterFirstSample(e, r, k);
      }
      assert AtFloorFrom(e, r, n + 1);
    }
  }

  lemma ReachesFloorFromSample(e: Estimate, r: real)
    requires e.srtt > 0.0 && 0.0 < r < MIN_RTO
    ensures exists n: nat :: AtFloorFrom(e, r, n)
  {
    var n := Needed(Spread(e, r), MIN_RTO - r);
    forall k: nat | k >= n
      ensures TimeoutOf(After(e, Repeat(r, k))) == MIN_RTO
    {
      SpreadVanishes(Spread(e, r), MIN_RTO - r, k);
      FloorReached(e, r, k);
    }
    assert AtFloorFrom(e, r, n);
  }
}
