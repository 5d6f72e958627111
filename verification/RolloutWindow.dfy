/** The sliding window of candidate samples with its incrementally kept totals. */
module RolloutWindow {
  import opened Options
  import opened Counting
  import opened Suffixes
  import opened RolloutPolicy
  import Percentile

  /** One completed candidate request; `at` is an instant in nanoseconds, `elapsed` in milliseconds. */
  datatype Sample = Sample(at: nat, failed: bool, elapsed: nat)

  datatype Samples = Samples(count: nat, errors: nat, slow: nat)

  const NANOS: nat := 1000000000
  const CAPACITY: nat := 10000

  /** Whole seconds since `at`; zero when `at` lies in the future. */
  function AgeSeconds(now: nat, at: nat): nat {
    if now <= at then 0 else (now - at) / NANOS
  }

  function Failed(): Sample -> bool {
    (s: Sample) => s.failed
  }

  function Slow(rule: Rollback): Sample -> bool {
    (s: Sample) => rule.maxP95.Some? && s.elapsed > rule.maxP95.value
  }

  function Recount(rule: Rollback, s: seq<Sample>): Samples {
    Samples(|s|, Count(Failed(), s), Count(Slow(rule), s))
  }

  /** A window is acceptable at `now` when it holds at most 10000 samples, none too old. */
  ghost function Fits(rule: Rollback, now: nat): seq<Sample> -> bool {
    (s: seq<Sample>) => |s| <= CAPACITY && forall i | 0 <= i < |s| :: AgeSeconds(now, s[i].at) <= rule.windowSeconds
  }

  /** Samples in the order of their instants, none later than `now`. */
  ghost predicate Ordered(s: seq<Sample>, now: nat) {
    && (forall i, j | 0 <= i < j < |s| :: s[i].at <= s[j].at)
    && (forall i | 0 <= i < |s| :: s[i].at <= now)
  }

  lemma RecountAppend(rule: Rollback, s: seq<Sample>, x: Sample)
    ensures Recount(rule, s + [x]) == Samples(
              Recount(rule, s).count + 1,
              Recount(rule, s).errors + (if x.failed then 1 else 0),
              Recount(rule, s).slow + (if Slow(rule)(x) then 1 else 0))
  {
    CountConcat(Failed(), s, [x]);
    CountConcat(Slow(rule), s, [x]);
  }

  lemma AgeMonotone(now: nat, now': nat, at: nat, at': nat)
    requires now <= now' && at' <= at
    ensures AgeSeconds(now, at) <= AgeSeconds(now', at')
  {
  }

  /** What was cut at an earlier time would be cut at a later one, with or without a new sample. */
  lemma WindowAbsorbs(rule: Rollback, log: seq<Sample>, early: nat, late: nat, tail: seq<Sample>)
    requires early <= late
    ensures LongestFit(Fits(rule, late), LongestFit(Fits(rule, early), log) + tail)
         == LongestFit(Fits(rule, late), log + tail)
  {
    forall k | 0 <= k < |log| && Fits(rule, late)(log[k..] + tail)
      ensures Fits(rule, early)(log[k..])
    {
      forall i | 0 <= i < |log[k..]| ensures AgeSeconds(early, log[k..][i].at) <= rule.windowSeconds {
        assert (log[k..] + tail)[i] == log[k..][i];
        AgeMonotone(early, late, log[k..][i].at, log[k..][i].at);
      }
    }
    Absorb(Fits(rule, early), Fits(rule, late), log, tail);
  }

  /** A window and its totals agree with the whole log as last cut at `prunedAt`. */
  ghost predicate Coupled(
      rule: Rollback, log: seq<Sample>, samples: seq<Sample>, totals: Samples, prunedAt: nat, clock: nat) {
    && prunedAt <= clock
    && Ordered(log, clock)
    && samples == LongestFit(Fits(rule, prunedAt), log)
    && totals == Recount(rule, samples)
  }

  lemma CoupledAfresh(rule: Rollback, log: seq<Sample>, samples: seq<Sample>, totals: Samples, now: nat)
    requires Ordered(log, now) && samples == LongestFit(Fits(rule, now), log) && totals == Recount(rule, samples)
    ensures Coupled(rule, log, samples, totals, now, now)
  {
  }

  lemma CoupledLater(
      rule: Rollback, log: seq<Sample>, samples: seq<Sample>, totals: Samples, prunedAt: nat, clock: nat, now: nat)
    requires Coupled(rule, log, samples, totals, prunedAt, clock) && clock <= now
    ensures Coupled(rule, log, samples, totals, prunedAt, now)
  {
  }

  /** Cutting the window at a later time cuts the log at that time. */
  lemma CutAgain(rule: Rollback, log: seq<Sample>, early: nat, late: nat)
    requires early <= late
    ensures LongestFit(Fits(rule, late), LongestFit(Fits(rule, early), log)) == LongestFit(Fits(rule, late), log)
  {
    hide Fits, LongestFit;
    WindowAbsorbs(rule, log, early, late, []);
    var cut := LongestFit(Fits(rule, early), log);
    assert cut + [] == cut && log + [] == log;
  }

  lemma OrderedCut(fits: seq<Sample> -> bool, log: seq<Sample>, now: nat)
    requires Ordered(log, now)
    ensures Ordered(LongestFit(fits, log), now)
  {
    hide LongestFit;
    OrderedSuffix(log, now, |log| - |LongestFit(fits, log)|);
  }

  lemma CoupledCut(
      rule: Rollback, log: seq<Sample>, samples: seq<Sample>, totals: Samples, prunedAt: nat, now: nat)
    requires Coupled(rule, log, samples, totals, prunedAt, now)
    ensures totals == Recount(rule, samples) && Ordered(samples, now)
    ensures var cut := LongestFit(Fits(rule, now), samples);
            && cut == LongestFit(Fits(rule, now), log)
            && Coupled(rule, log, cut, Recount(rule, cut), now, now)
  {
    hide LongestFit, Fits, Ordered, Recount;
    OrderedCut(Fits(rule, prunedAt), log, now);
    CutAgain(rule, log, prunedAt, now);
  }

  lemma OrderedGrows(s: seq<Sample>, clock: nat, tail: seq<Sample>, now: nat)
    requires Ordered(s, clock) && clock <= now
    requires |tail| <= 1 && forall x | x in tail :: x.at == now
    ensures Ordered(s + tail, now)
  {
  }

  lemma OrderedSuffix(s: seq<Sample>, now: nat, k: nat)
    requires Ordered(s, now) && k <= |s|
    ensures Ordered(s[k..], now)
  {
  }

  /** step added up n times. Thresholds are stated with it so that only the lemma comparing them
      with the engine's products has to reason about multiplication. */
  function Multiple(step: nat, n: nat): nat {
    if n == 0 then 0 else step + Multiple(step, n - 1)
  }

  lemma {:induction false} MultipleIsProduct(step: nat, n: nat)
    ensures Multiple(step, n) == n * step
  {
    if n > 0 {
      MultipleIsProduct(step, n - 1);
    }
  }

  /** Errors reach the configured percentage of the window. */
  predicate ErrorTrip(rule: Rollback, w: seq<Sample>) {
    100 * Count(Failed(), w) >= Multiple(rule.errorPercent, |w|)
  }

  function Elapsed(w: seq<Sample>): (r: seq<nat>)
    ensures |r| == |w|
    ensures forall i | 0 <= i < |w| :: r[i] == w[i].elapsed
  {
    seq(|w|, i requires 0 <= i < |w| => w[i].elapsed)
  }

  /** The sorted window's nearest-rank p95 is above the configured limit. */
  ghost predicate LatencyTrip(rule: Rollback, w: seq<Sample>) {
    w != [] && rule.maxP95.Some? && Percentile.P95(Elapsed(w)) > rule.maxP95.value
  }

  ghost predicate Trips(rule: Rollback, w: seq<Sample>) {
    |w| >= rule.minRequests && (ErrorTrip(rule, w) || LatencyTrip(rule, w))
  }

  lemma {:induction false} SlowIsAbove(rule: Rollback, w: seq<Sample>)
    requires rule.maxP95.Some?
    ensures Count(Slow(rule), w) == Count(Percentile.Above(rule.maxP95.value), Elapsed(w))
  {
    if w != [] {
      assert Elapsed(w)[1..] == Elapsed(w[1..]);
      SlowIsAbove(rule, w[1..]);
    }
  }

  /** The engine's error test. */
  predicate OverErrorLimit(rule: Rollback, totals: Samples) {
    totals.errors * 100 >= totals.count * rule.errorPercent
  }

  /** The engine's latency test: more than a twentieth of the samples are slow. */
  predicate OverLatencyLimit(rule: Rollback, totals: Samples) {
    rule.maxP95.Some? && totals.slow > totals.count / 20
  }

  /** The engine's arithmetic on the totals decides the rule stated by sorting. */
  lemma TotalsDecideTrips(rule: Rollback, w: seq<Sample>)
    ensures Recount(rule, w).count == |w|
    ensures OverErrorLimit(rule, Recount(rule, w)) <==> ErrorTrip(rule, w)
    ensures OverLatencyLimit(rule, Recount(rule, w)) <==> LatencyTrip(rule, w)
  {
    MultipleIsProduct(rule.errorPercent, |w|);
    if rule.maxP95.Some? && w != [] {
      SlowIsAbove(rule, w);
      Percentile.SortedCopySorts(Elapsed(w));
      Percentile.CountingDecidesP95(Elapsed(w), Percentile.SortedCopy(Elapsed(w)), rule.maxP95.value);
    }
  }

  /** A window is kept whole exactly when it has at most 10000 samples, none of them aged a full
      second more than the configured seconds. */
  lemma WindowKeeps(rule: Rollback, now: nat, s: seq<Sample>)
    ensures Fits(rule, now)(s) <==>
            |s| <= 10000 && forall i | 0 <= i < |s| :: now < s[i].at + (rule.windowSeconds + 1) * 1000000000
  {
    forall i | 0 <= i < |s|
      ensures AgeSeconds(now, s[i].at) <= rule.windowSeconds
              <==> now < s[i].at + (rule.windowSeconds + 1) * 1000000000
    {
      AgeIsWholeSeconds(now, s[i].at, rule.windowSeconds);
    }
  }

  /** Age counts whole seconds, and none for an instant to come. */
  lemma AgeIsWholeSeconds(now: nat, at: nat, seconds: nat)
    ensures AgeSeconds(now, at) <= seconds <==> now < at + (seconds + 1) * 1000000000
    ensures now <= at ==> AgeSeconds(now, at) == 0
  {
  }

  /** The error threshold is the share of failed samples in percent. */
  lemma ErrorTripIsShare(rule: Rollback, w: seq<Sample>)
    requires w != []
    ensures ErrorTrip(rule, w) <==> 100.0 * (|FailedAt(w)| as real) / (|w| as real) >= rule.errorPercent as real
  {
    MultipleIsProduct(rule.errorPercent, |w|);
    FailedPositions(w);
    ShareInPercent(|FailedAt(w)|, |w|, rule.errorPercent);
  }

  lemma ShareInPercent(part: nat, whole: nat, percent: nat)
    requires whole > 0
    ensures 100 * part >= whole * percent <==> 100.0 * (part as real) / (whole as real) >= percent as real
  {
    var p, w, x := 100.0 * (part as real), whole as real, percent as real;
    assert p == (100 * part) as real && w * x == (whole * percent) as real;
    assert (p / w) * w == p;
    if p / w >= x {
      assert (p / w) * w >= x * w;
    } else {
      assert (p / w) * w < x * w;
    }
  }

  /** Where the failed samples are. */
  ghost function FailedAt(w: seq<Sample>): set<int> {
    set i | 0 <= i < |w| && w[i].failed
  }

  lemma {:induction false} FailedPositions(w: seq<Sample>)
    ensures Count(Failed(), w) == |FailedAt(w)|
    decreases |w|
  {
    if w == [] {
      assert FailedAt(w) == {};
    } else {
      var n := |w| - 1;
      FailedPositions(w[..n]);
      assert w == w[..n] + [w[n]];
      CountConcat(Failed(), w[..n], [w[n]]);
      assert FailedAt(w) == if w[n].failed then FailedAt(w[..n]) + {n} else FailedAt(w[..n]);
    }
  }

  /** One sample fewer than required never trips; just enough of them do when all failed, or when all
      are slower than the limit; and without a failed or slow one they do not. */
  lemma TripBoundaries(rule: Rollback, w: seq<Sample>)
    requires 1 <= rule.errorPercent <= 100
    ensures |w| < rule.minRequests ==> !Trips(rule, w)
    ensures w != [] && |w| >= rule.minRequests && (forall s | s in w :: s.failed) ==> Trips(rule, w)
    ensures w != [] && |w| >= rule.minRequests && rule.maxP95.Some? && (forall s | s in w :: s.elapsed > rule.maxP95.value)
            ==> Trips(rule, w)
    ensures w != [] && (forall s | s in w :: !s.failed && (rule.maxP95.Some? ==> s.elapsed <= rule.maxP95.value))
            ==> !Trips(rule, w)
  {
    hide ErrorTrip, LatencyTrip, Recount, OverErrorLimit, OverLatencyLimit;
    TotalsDecideTrips(rule, w);
    if w != [] {
      AllOrNone(rule, w);
    }
  }

  /** The engine's tests on totals where every sample, or none, failed or is slow. */
  lemma AllOrNone(rule: Rollback, w: seq<Sample>)
    requires w != [] && 1 <= rule.errorPercent <= 100
    ensures (forall s | s in w :: s.failed) ==> OverErrorLimit(rule, Recount(rule, w))
    ensures (forall s | s in w :: !s.failed) ==> !OverErrorLimit(rule, Recount(rule, w))
    ensures rule.maxP95.Some? && (forall s | s in w :: s.elapsed > rule.maxP95.value) ==>
              OverLatencyLimit(rule, Recount(rule, w))
    ensures (forall s | s in w :: rule.maxP95.Some? ==> s.elapsed <= rule.maxP95.value) ==>
              !OverLatencyLimit(rule, Recount(rule, w))
  {
    hide Count;
    PercentOfWhole(|w|, rule.errorPercent);
    if forall s | s in w :: s.failed {
      CountAll(Failed(), w);
    }
    if forall s | s in w :: !s.failed {
      CountNone(Failed(), w);
    }
    if rule.maxP95.Some? && forall s | s in w :: s.elapsed > rule.maxP95.value {
      CountAll(Slow(rule), w);
    }
    if forall s | s in w :: rule.maxP95.Some? ==> s.elapsed <= rule.maxP95.value {
      CountNone(Slow(rule), w);
    }
  }

  lemma PercentOfWhole(n: nat, percent: nat)
    requires n > 0 && 1 <= percent <= 100
    ensures 0 < n * percent <= n * 100
  {
  }

  class Window {
    var samples: seq<Sample>
    var totals: Samples
    var rolledBack: bool
    var reason: string

    constructor ()
      ensures samples == [] && totals == Samples(0, 0, 0) && !rolledBack && reason == ""
    {
      samples, totals, rolledBack, reason := [], Samples(0, 0, 0), false, "";
    }

    /** Front eviction leaves the longest acceptable suffix and totals that equal a recount;
        no counter ever goes below zero. */
    method Prune(now: nat, rule: Rollback)
      requires totals == Recount(rule, samples) && Ordered(samples, now)
      modifies this`samples, this`totals
      ensures samples == LongestFit(Fits(rule, now), old(samples))
      ensures totals == Recount(rule, samples)
    {
      while samples != []
            && (AgeSeconds(now, samples[0].at) > rule.windowSeconds || |samples| > CAPACITY)
        invariant LongestFit(Fits(rule, now), samples) == LongestFit(Fits(rule, now), old(samples))
        invariant totals == Recount(rule, samples) && Ordered(samples, now)
        decreases |samples|
      {
        var front := samples[0];
        assert !Fits(rule, now)(samples);
        samples := samples[1..];
        totals := Samples(
          totals.count - 1,
          totals.errors - (if front.failed then 1 else 0),
          totals.slow - (if Slow(rule)(front) then 1 else 0));
      }
      forall i | 0 <= i < |samples| ensures AgeSeconds(now, samples[i].at) <= rule.windowSeconds {
        AgeMonotone(now, now, samples[i].at, samples[0].at);
      }
    }

    /** A new sample enters at the back and is counted before old ones are dropped. */
    method Push(sample: Sample, rule: Rollback)
      requires totals == Recount(rule, samples) && Ordered(samples + [sample], sample.at)
      modifies this`samples, this`totals
      ensures samples == LongestFit(Fits(rule, sample.at), old(samples) + [sample])
      ensures totals == Recount(rule, samples)
    {
      hide Recount, LongestFit, Fits, Ordered;
      RecountAppend(rule, samples, sample);
      samples := samples + [sample];
      totals := Samples(
        totals.count + 1,
        totals.errors + (if sample.failed then 1 else 0),
        totals.slow + (if Slow(rule)(sample) then 1 else 0));
      Prune(sample.at, rule);
    }
  }
}
