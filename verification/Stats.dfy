/** The counters and averages of rx_stats.c, with reals for the doubles. */
module Stats {
  import opened Bytes

  type u64 = x: int | 0 <= x < 0x1_0000_0000_0000_0000

  // ---------- Samples ----------

  /** `a - b` in 64-bit unsigned arithmetic, read as a signed number. */
  function SignedDiff64(a: u64, b: u64): int {
    var d := (a - b) % 0x1_0000_0000_0000_0000;
    if d < 0x8000_0000_0000_0000 then d else d - 0x1_0000_0000_0000_0000
  }

  function Diff32(a: u32, b: u32): u32 {
    (a - b) % 0x1_0000_0000
  }

  /** The RTP clock of 90 kHz in microseconds. */
  function RtpToUs(ticks: nat): nat {
    ticks * 1_000_000 / 90_000
  }

  /** One packet: arrival time in microseconds and RTP timestamp. */
  datatype Arrival = Arrival(now: u64, ts: u32)

  function GapUs(a: Arrival, b: Arrival): int {
    SignedDiff64(b.now, a.now)
  }

  function JitterUs(a: Arrival, b: Arrival): nat {
    var diff := GapUs(a, b) - RtpToUs(Diff32(b.ts, a.ts));
    if diff < 0 then -diff else diff
  }

  /** While the clock does not run backwards the gap is the time that passed. */
  lemma GapIsElapsed(a: Arrival, b: Arrival)
    requires a.now <= b.now < a.now + 0x8000_0000_0000_0000
    ensures GapUs(a, b) == b.now - a.now
  {
  }

  /** A forward step below 2^32 ticks is measured right, wrap or no wrap. */
  lemma RtpStepIsExact(last: u32, step: u32)
    ensures Diff32((last + step) % 0x1_0000_0000, last) == step
  {
    var next := (last + step) % 0x1_0000_0000;
    assert next == last + step || next == last + step - 0x1_0000_0000;
  }

  // ---------- The filter ----------

  /** Each sample moves the average by a fixed share of its distance. */
  ghost function Average(xs: seq<int>, share: real): real {
    if xs == [] then 0.0
    else
      var m := Average(Front(xs), share);
      m + (Last(xs) as real - m) * share
  }

  ghost function Pow(q: real, n: nat): real {
    if n == 0 then 1.0 else q * Pow(q, n - 1)
  }

  /** The exponentially weighted sum: a sample that is `n` steps old counts `(1 - share)^n`
      of its share. */
  ghost function WeightedSum(xs: seq<int>, share: real): real {
    if xs == [] then 0.0
    else share * Pow(1.0 - share, |xs| - 1) * (xs[0] as real) + WeightedSum(xs[1..], share)
  }

  lemma {:induction false} WeightedSumSnoc(xs: seq<int>, x: int, share: real)
    ensures WeightedSum(xs + [x], share) == (1.0 - share) * WeightedSum(xs, share) + share * (x as real)
    decreases |xs|
  {
    var ys, q := xs + [x], 1.0 - share;
    if xs == [] {
      assert ys == [x] && ys[1..] == [];
      assert Pow(q, 0) == 1.0;
    } else {
      assert ys[1..] == xs[1..] + [x];
      WeightedSumSnoc(xs[1..], x, share);
      OneStepOlder(share, Pow(q, |xs| - 1), xs[0] as real, WeightedSum(xs[1..], share), share * (x as real));
    }
  }

  lemma OneStepOlder(share: real, p: real, x: real, rest: real, newest: real)
    ensures share * ((1.0 - share) * p) * x + ((1.0 - share) * rest + newest) ==
            (1.0 - share) * (share * p * x + rest) + newest
  {
  }

  lemma Mix(m: real, x: real, share: real)
    ensures m + (x - m) * share == (1.0 - share) * m + share * x
  {
  }

  lemma AverageSnoc(xs: seq<int>, x: int, share: real)
    ensures Average(xs + [x], share) == Average(xs, share) + (x as real - Average(xs, share)) * share
  {
    assert Front(xs + [x]) == xs;
  }

  lemma WeightedStep(xs: seq<int>, x: int, share: real)
    requires Average(xs, share) == WeightedSum(xs, share)
    ensures Average(xs + [x], share) == WeightedSum(xs + [x], share)
  {
    AverageSnoc(xs, x, share);
    WeightedSumSnoc(xs, x, share);
    Mix(Average(xs, share), x as real, share);
  }

  /** The running average is the weighted sum of all samples. */
  lemma {:induction false} AverageIsWeightedSum(xs: seq<int>, share: real)
    ensures Average(xs, share) == WeightedSum(xs, share)
  {
    if xs == [] {
    } else {
      AverageIsWeightedSum(Front(xs), share);
      WeightedStep(Front(xs), Last(xs), share);
      FrontThenLast(xs);
    }
  }

  lemma NonNegative(a: real, b: real)
    requires a >= 0.0 && b >= 0.0
    ensures a * b >= 0.0
  {
  }

  lemma Between(m: real, x: real, share: real, hi: real)
    requires 0.0 <= share <= 1.0 && 0.0 <= m <= hi && 0.0 <= x <= hi
    ensures 0.0 <= m + (x - m) * share <= hi
  {
    Mix(m, x, share);
    NonNegative(1.0 - share, m);
    NonNegative(share, x);
    NonNegative(1.0 - share, hi - m);
    NonNegative(share, hi - x);
    assert hi - ((1.0 - share) * m + share * x) == (1.0 - share) * (hi - m) + share * (hi - x);
  }

  /** The average of samples that are not negative lies between zero and any bound of them. */
  lemma {:induction false} AverageIsBounded(xs: seq<int>, share: real, max: nat)
    requires 0.0 <= share <= 1.0 && forall x :: x in xs ==> 0 <= x <= max
    ensures 0.0 <= Average(xs, share) <= max as real
  {
    if xs == [] {
    } else {
      assert Last(xs) in xs && forall x :: x in Front(xs) ==> x in xs;
      AverageIsBounded(Front(xs), share, max);
      Between(Average(Front(xs), share), Last(xs) as real, share, max as real);
    }
  }

  /** A constant signal is approached, with an error that shrinks by the same factor at every
      sample. */
  lemma {:induction false} AverageApproaches(xs: seq<int>, share: real, x: int)
    requires forall i :: 0 <= i < |xs| ==> xs[i] == x
    ensures x as real - Average(xs, share) == Pow(1.0 - share, |xs|) * (x as real)
  {
    if xs == [] {
    } else {
      AverageApproaches(Front(xs), share, x);
      var m, v, q := Average(Front(xs), share), x as real, 1.0 - share;
      assert v - (m + (v - m) * share) == q * (v - m);
      assert q * (Pow(q, |xs| - 1) * v) == (q * Pow(q, |xs| - 1)) * v;
    }
  }

  // ---------- The record ----------

  /** The jitter samples of a sequence of packets, one for each but the first. */
  ghost function JitterSamples(seen: seq<Arrival>): (xs: seq<int>)
    ensures |xs| == if seen == [] then 0 else |seen| - 1
    ensures forall x :: x in xs ==> x >= 0
  {
    if |seen| < 2 then [] else JitterSamples(Front(seen)) + [JitterUs(seen[|seen| - 2], Last(seen))]
  }

  ghost function GapSamples(seen: seq<Arrival>): (xs: seq<int>)
    ensures |xs| == if seen == [] then 0 else |seen| - 1
  {
    if |seen| < 2 then [] else GapSamples(Front(seen)) + [GapUs(seen[|seen| - 2], Last(seen))]
  }

  lemma SamplesSnoc(seen: seq<Arrival>, a: Arrival)
    ensures JitterSamples(seen + [a]) ==
            if seen == [] then [] else JitterSamples(seen) + [JitterUs(Last(seen), a)]
    ensures GapSamples(seen + [a]) == if seen == [] then [] else GapSamples(seen) + [GapUs(Last(seen), a)]
  {
    assert Front(seen + [a]) == seen;
  }

  /** The clock never runs backwards. */
  ghost predicate Ticking(seen: seq<Arrival>) {
    forall i :: 0 < i < |seen| ==> seen[i - 1].now <= seen[i].now < seen[i - 1].now + 0x8000_0000_0000_0000
  }

  lemma TickingFront(seen: seq<Arrival>)
    requires Ticking(seen) && seen != []
    ensures Ticking(Front(seen))
  {
  }

  /** With such a clock every gap sample is the time between two arrivals. */
  lemma {:induction false} GapsOfAClock(seen: seq<Arrival>)
    requires Ticking(seen)
    ensures forall i :: 0 < i < |seen| ==> GapSamples(seen)[i - 1] == seen[i].now - seen[i - 1].now
    ensures forall x :: x in GapSamples(seen) ==> 0 <= x
  {
    if |seen| < 2 {
    } else {
      TickingFront(seen);
      GapsOfAClock(Front(seen));
      GapIsElapsed(seen[|seen| - 2], seen[|seen| - 1]);
      forall i | 0 < i < |seen|
        ensures GapSamples(seen)[i - 1] == seen[i].now - seen[i - 1].now
      {
        if i < |seen| - 1 {
          assert Front(seen)[i] == seen[i] && Front(seen)[i - 1] == seen[i - 1];
        }
      }
    }
  }

  function Abs(x: int): nat {
    if x < 0 then -x else x
  }

  /** One jitter sample, nine times enlarged so that it is a whole number: the difference between
      the time that passed and the step of the 90 kHz clock, to within rounding. */
  lemma JitterSample(a: Arrival, b: Arrival, elapsed: int, step: nat)
    requires a.now <= b.now < a.now + 0x8000_0000_0000_0000
    requires elapsed == b.now - a.now && step == (b.ts - a.ts) % 0x1_0000_0000
    ensures Abs(9 * JitterUs(a, b) - Abs(9 * elapsed - 100 * step)) < 9
  {
    GapIsElapsed(a, b);
    var us := RtpToUs(step);
    assert 0 <= 100 * step - 9 * us < 9;
  }

  /** What the jitter is an average of, for any clock that does not run backwards and any
      timestamps: sample `i` is how far the time between two arrivals, in microseconds, is from
      the step of their timestamps modulo 2^32, at 100 / 9 microseconds a tick, to within one
      microsecond. */
  lemma {:induction false} JitterIsDrift(seen: seq<Arrival>, i: nat)
    requires Ticking(seen) && 0 < i < |seen|
    ensures var elapsed, step := seen[i].now - seen[i - 1].now, (seen[i].ts - seen[i - 1].ts) % 0x1_0000_0000;
            Abs(9 * JitterSamples(seen)[i - 1] - Abs(9 * elapsed - 100 * step)) < 9
    decreases |seen|
  {
    if i == |seen| - 1 {
      JitterSample(seen[i - 1], seen[i], seen[i].now - seen[i - 1].now,
                   (seen[i].ts - seen[i - 1].ts) % 0x1_0000_0000);
    } else {
      TickingFront(seen);
      JitterIsDrift(Front(seen), i);
      assert Front(seen)[i] == seen[i] && Front(seen)[i - 1] == seen[i - 1];
    }
  }

  /** The packets come in step with their timestamps, to within one microsecond. */
  ghost predicate InStep(seen: seq<Arrival>) {
    forall i :: 0 < i < |seen| ==>
      -9 <= 9 * (seen[i].now - seen[i - 1].now) - 100 * ((seen[i].ts - seen[i - 1].ts) % 0x1_0000_0000) <= 9
  }

  lemma SteadySample(seen: seq<Arrival>, i: nat)
    requires Ticking(seen) && InStep(seen) && 0 < i < |seen|
    ensures 0 <= JitterSamples(seen)[i - 1] <= 1
  {
    hide JitterSamples;
    JitterIsDrift(seen, i);
    assert JitterSamples(seen)[i - 1] in JitterSamples(seen);
  }

  /** A stream in step shows a jitter below two microseconds. */
  lemma SteadyStreamHasNoJitter(seen: seq<Arrival>)
    requires Ticking(seen) && InStep(seen)
    ensures 0.0 <= Average(JitterSamples(seen), 1.0 / 16.0) < 2.0
  {
    hide JitterSamples, Ticking, InStep, Average;
    var xs := JitterSamples(seen);
    forall x | x in xs
      ensures 0 <= x <= 1
    {
      var k: nat :| k < |xs| && xs[k] == x;
      SteadySample(seen, k + 1);
    }
    AverageIsBounded(xs, 1.0 / 16.0, 1);
  }

  ghost predicate Bounded(xs: seq<int>, max: nat) {
    forall x :: x in xs ==> x <= max
  }

  /** For any arrival clock that does not run backwards and any timestamps: both averages are
      the weighted sums of their samples and lie between zero and the largest of them. */
  lemma AveragesOfAClock(seen: seq<Arrival>, maxJitter: nat, maxGap: nat)
    requires Ticking(seen) && Bounded(JitterSamples(seen), maxJitter) && Bounded(GapSamples(seen), maxGap)
    ensures var j, g := Average(JitterSamples(seen), JITTER_SHARE), Average(GapSamples(seen), GAP_SHARE);
            j == WeightedSum(JitterSamples(seen), 1.0 / 16.0) && g == WeightedSum(GapSamples(seen), 1.0 / 256.0) &&
            0.0 <= j <= maxJitter as real && 0.0 <= g <= maxGap as real
  {
    AverageIsWeightedSum(JitterSamples(seen), JITTER_SHARE);
    AverageIsWeightedSum(GapSamples(seen), GAP_SHARE);
    AverageIsBounded(JitterSamples(seen), JITTER_SHARE, maxJitter);
    GapsOfAClock(seen);
    AverageIsBounded(GapSamples(seen), GAP_SHARE, maxGap);
  }

  const JITTER_SHARE: real := 1.0 / 16.0
  const GAP_SHARE: real := 1.0 / 256.0

  /** A 64-bit counter that has counted to `n`. */
  function Wrap64(n: nat): u64 {
    n % 0x1_0000_0000_0000_0000
  }

  /** The atomic addition, which wraps. */
  function Add64(a: u64, n: nat): u64 {
    (a + n) % 0x1_0000_0000_0000_0000
  }

  /** Until it wraps, a counter shows the true number. */
  lemma BelowWrap(n: nat)
    requires n < 0x1_0000_0000_0000_0000
    ensures Wrap64(n) == n
  {
  }

  lemma WrapAdds(n: nat, k: nat)
    ensures Add64(Wrap64(n), k) == Wrap64(n + k)
  {
    assert n == 0x1_0000_0000_0000_0000 * (n / 0x1_0000_0000_0000_0000) + Wrap64(n);
  }

  class StatsState {
    var framesReceived: u64
    var framesDropped: u64
    var packetsReceived: u64
    var packetsLost: u64
    var lock: u64
    var jitter: real
    var avgGapUs: real
    var lastTs: u32
    var lastArrivalUs: u64
    var hasPrev: bool
    ghost var seen: seq<Arrival>
    ghost var frames: nat
    ghost var drops: nat
    ghost var lost: nat

    /** The averages are those of everything seen, the lock has made two steps for each sample,
        and the counters are the true numbers up to their wrap. */
    ghost predicate Valid()
      reads this
    {
      Averaged() && Counted()
    }

    ghost predicate Averaged()
      reads this
    {
      hasPrev == (seen != []) &&
      (seen != [] ==> lastTs == Last(seen).ts && lastArrivalUs == Last(seen).now) &&
      jitter == Average(JitterSamples(seen), JITTER_SHARE) &&
      avgGapUs == Average(GapSamples(seen), GAP_SHARE)
    }

    ghost predicate Counted()
      reads this
    {
      packetsReceived == Wrap64(|seen|) && lock == Wrap64(2 * |JitterSamples(seen)|) &&
      framesReceived == Wrap64(frames) && framesDropped == Wrap64(drops) && packetsLost == Wrap64(lost) &&
      drops <= frames
    }

    constructor ()
      ensures Valid() && seen == []
      ensures frames == drops == lost == 0
    {
      framesReceived, framesDropped, packetsReceived, packetsLost, lock := 0, 0, 0, 0, 0;
      jitter, avgGapUs, lastTs, lastArrivalUs, hasPrev := 0.0, 0.0, 0, 0, false;
      seen, frames, drops, lost := [], 0, 0, 0;
    }

    /** The write under the lock: one sample for each average. */
    method UpdateAverages(now: u64, ts: u32)
      requires Averaged() && hasPrev && lock == Wrap64(2 * |JitterSamples(seen)|)
      modifies this`lock, this`jitter, this`avgGapUs
      ensures lock == Wrap64(2 * |JitterSamples(seen + [Arrival(now, ts)])|)
      ensures jitter == Average(JitterSamples(seen + [Arrival(now, ts)]), JITTER_SHARE)
      ensures avgGapUs == Average(GapSamples(seen + [Arrival(now, ts)]), GAP_SHARE)
    {
      hide Average, JitterSamples, GapSamples, Wrap64, Add64;
      ghost var n := |JitterSamples(seen)|;
      SamplesSnoc(seen, Arrival(now, ts));
      var dArrival := SignedDiff64(now, lastArrivalUs);
      var dRtp := RtpToUs(Diff32(ts, lastTs));
      var diff := dArrival - dRtp;
      if diff < 0 {
        diff := -diff;
      }
      AverageSnoc(JitterSamples(seen), diff, JITTER_SHARE);
      AverageSnoc(GapSamples(seen), dArrival, GAP_SHARE);
      WrapAdds(2 * n, 1);
      WrapAdds(2 * n + 1, 1);
      lock := Add64(lock, 1);
      jitter := jitter + (diff as real - jitter) / 16.0;
      avgGapUs := avgGapUs + (dArrival as real - avgGapUs) / 256.0;
      lock := Add64(lock, 1);
    }

    method RecordPacket(now: u64, ts: u32)
      requires Valid()
      modifies this
      ensures Valid() && seen == old(seen) + [Arrival(now, ts)]
      ensures unchanged(`framesReceived, `framesDropped, `packetsLost, `frames, `drops, `lost)
    {
      hide Average, Wrap64, Add64, GapUs, JitterUs;
      SamplesSnoc(seen, Arrival(now, ts));
      WrapAdds(|seen|, 1);
      packetsReceived := Add64(packetsReceived, 1);
      if hasPrev {
        UpdateAverages(now, ts);
      }
      lastTs, lastArrivalUs, hasPrev := ts, now, true;
      seen := seen + [Arrival(now, ts)];
    }

    method RecordFrame(incomplete: bool)
      requires Valid()
      modifies this`framesReceived, this`framesDropped, this`frames, this`drops
      ensures Valid() && frames == old(frames) + 1 && drops == old(drops) + (if incomplete then 1 else 0)
    {
      hide Wrap64, Add64, Average, JitterSamples, GapSamples;
      WrapAdds(frames, 1);
      framesReceived, frames := Add64(framesReceived, 1), frames + 1;
      if incomplete {
        WrapAdds(drops, 1);
        framesDropped, drops := Add64(framesDropped, 1), drops + 1;
      }
    }

    method RecordLost(count: nat)
      requires Valid()
      modifies this`packetsLost, this`lost
      ensures Valid() && lost == old(lost) + count
    {
      WrapAdds(lost, count);
      packetsLost, lost := Add64(packetsLost, count), lost + count;
    }
  }
}
