/** One release as the proxy runs it: an incremental window, a selection cursor and a latch. */
module RolloutState {
  import opened Options
  import opened Suffixes
  import opened RolloutPolicy
  import opened RolloutSelection
  import opened RolloutWindow
  import opened RolloutMachine
  import opened StageSelection

  const U64: nat := 0x1_0000_0000_0000_0000

  /** The persisted progress of a staged rollout. */
  datatype ProgressRecord = ProgressRecord(
    revision: string,
    policyHash: string,
    stage: nat,
    startedAt: int,
    paused: bool,
    approvedStage: Option<nat>,
    promoted: bool)

  const NO_PROGRESS := ProgressRecord("", "", 0, 0, false, None, false)

  /** What the fleet pools samples under: replicas agree on it exactly when they run the same policy
      for the same owner, at the same stage begun at the same time. */
  datatype SampleKey = SampleKey(identity: string, policyHash: string, stage: nat, startedAt: int)

  /** Stages that the policy has; a policy without any has only the first. */
  predicate HasStage(policy: Policy, stage: nat) {
    stage < |policy.stages| || stage == 0
  }

  predicate Proper(policy: Policy, p: ProgressRecord) {
    HasStage(policy, p.stage) && p.startedAt >= 0 && (p.approvedStage.Some? ==> HasStage(policy, p.approvedStage.value))
  }

  /** A proper record names a stage the policy has, or the only one of a policy without stages, was
      begun at no negative time, and approves no stage the policy lacks. */
  lemma ProperRecords(policy: Policy, p: ProgressRecord)
    ensures var last := if policy.stages == [] then 0 else |policy.stages| - 1;
            Proper(policy, p) <==>
              p.stage <= last && 0 <= p.startedAt && (p.approvedStage == None || p.approvedStage.value <= last)
  {
  }

  class State {
    const cfg: Config
    const window: Window
    var cursor: nat
    const identity: string
    const policyHash: string
    var progress: ProgressRecord

    // Every accepted sample since the last stage change, and the latest instant seen.
    ghost var log: seq<Sample>
    ghost var clock: nat
    ghost var prunedAt: nat

    ghost predicate Valid()
      reads this, window
    {
      && cursor < U64 && Proper(cfg.policy, progress)
      && match cfg.policy.rollback
         case None => !window.rolledBack && log == [] && window.samples == [] && window.totals == Samples(0, 0, 0)
         case Some(rule) => Coupled(rule, log, window.samples, window.totals, prunedAt, clock)
    }

    /** The record belongs to this policy. */
    predicate Ours(p: ProgressRecord) {
      p.revision == cfg.policy.revision && p.policyHash == policyHash
    }

    /** The machine state this object represents. */
    ghost function View(): Model
      reads this, window
    {
      Model(Track(log, progress.stage, progress.startedAt), window.rolledBack, window.reason)
    }

    constructor (cfg: Config, identity: string, policyHash: string)
      ensures Valid() && fresh(window) && this.cfg == cfg
      ensures this.identity == identity && this.policyHash == policyHash && progress == NO_PROGRESS
      ensures View() == Run(cfg, []) && cursor == 0 && clock == 0
    {
      this.cfg, this.identity, this.policyHash := cfg, identity, policyHash;
      window := new Window();
      cursor, progress := 0, NO_PROGRESS;
      log, clock, prunedAt := [], 0, 0;
    }

    /** `completed`: the window and its totals decide exactly what sorting the whole log decides. */
    method Completed(backend: string, failed: bool, elapsed: nat, stage: nat, now: nat) returns (tripped: bool)
      requires Valid() && clock <= now
      modifies this, window
      ensures Valid() && clock == now && cursor == old(cursor)
      ensures (View(), tripped)
           == Step(cfg, old(View()), Event.Completed(backend, failed, elapsed, stage, now))
      ensures |log| > |old(log)| ==>
                && window.samples == LongestFit(Fits(cfg.policy.rollback.value, now), log)
                && window.totals == Recount(cfg.policy.rollback.value, window.samples)
    {
      hide WellFormed, Trips, LongestFit, Fits, Coupled, Step, Recount;
      ServicesResolve(cfg);
      ghost var m, e := View(), Event.Completed(backend, failed, elapsed, stage, now);
      if cfg.policy.rollback.Some? {
        CoupledLater(cfg.policy.rollback.value, log, window.samples, window.totals, prunedAt, clock, now);
      }
      clock := now;
      tripped := false;
      if m.latched || !Counted(cfg, m.track, e) {
        StepOnUncounted(cfg, m, e);
      }
      if stage != progress.stage {
        return;
      }
      if cfg.policy.rollback.None? {
        return;
      }
      var rule := cfg.policy.rollback.value;
      if cfg.backends[rule.fallback] == backend
         || !(exists i | 0 <= i < |cfg.policy.backends| :: cfg.backends[cfg.policy.backends[i].service] == backend) {
        return;
      }
      if window.rolledBack {
        return;
      }
      var sample := Sample(now, failed, elapsed);
      tripped := Accept(sample, rule);
      StepOnCounted(cfg, m, e, window.samples);
    }

    /** Appending a sample to window and log alike leaves both with the same cut. */
    lemma Grows(rule: Rollback, tail: seq<Sample>, now: nat)
      requires Coupled(rule, log, window.samples, window.totals, prunedAt, now)
      requires |tail| <= 1 && forall x | x in tail :: x.at == now
      ensures Ordered(log + tail, now) && Ordered(window.samples + tail, now)
      ensures window.totals == Recount(rule, window.samples)
      ensures LongestFit(Fits(rule, now), window.samples + tail) == LongestFit(Fits(rule, now), log + tail)
    {
      hide LongestFit, Recount;
      OrderedGrows(log, now, tail, now);
      OrderedSuffix(log, now, |log| - |window.samples|);
      OrderedGrows(window.samples, now, tail, now);
      WindowAbsorbs(rule, log, prunedAt, now, tail);
    }

    /** The part of `completed` that runs under the window lock. */
    method Accept(sample: Sample, rule: Rollback) returns (tripped: bool)
      requires cfg.policy.rollback == Some(rule) && rule.minRequests > 0 && !window.rolledBack
      requires Coupled(rule, log, window.samples, window.totals, prunedAt, sample.at)
      modifies `log, `prunedAt, window
      ensures log == old(log) + [sample] && prunedAt == sample.at
      ensures Coupled(rule, log, window.samples, window.totals, prunedAt, sample.at)
      ensures window.samples == LongestFit(Fits(rule, sample.at), log)
      ensures window.totals == Recount(rule, window.samples)
      ensures tripped == window.rolledBack == Trips(rule, window.samples)
      ensures window.reason == if !tripped then old(window.reason)
                               else if ErrorTrip(rule, window.samples) then "error threshold"
                               else "p95 threshold"
    {
      hide ErrorTrip, LatencyTrip, LongestFit, Fits, Ordered, Recount, WellFormed, Coupled,
        OverErrorLimit, OverLatencyLimit;
      Grows(rule, [sample], sample.at);
      log, prunedAt := log + [sample], sample.at;
      window.Push(sample, rule);
      CoupledAfresh(rule, log, window.samples, window.totals, sample.at);
      TotalsDecideTrips(rule, window.samples);
      var totals := window.totals;
      if totals.count < rule.minRequests {
        return false;
      }
      var errorLimit, latencyLimit := OverErrorLimit(rule, totals), OverLatencyLimit(rule, totals);
      tripped := errorLimit || latencyLimit;
      if tripped {
        window.rolledBack := true;
        window.reason := if errorLimit then "error threshold" else "p95 threshold";
      }
    }

    /** Reporting to the fleet expires old samples but accepts none. */
    method SampleReport(now: nat) returns (key: SampleKey, totals: Samples)
      requires Valid() && clock <= now
      modifies this, window
      ensures Valid() && clock == now && cursor == old(cursor)
      ensures View() == Step(cfg, old(View()), Report(now)).0
      ensures key == SampleKey(identity, policyHash, View().track.stage, View().track.startedAt)
      ensures cfg.policy.rollback.Some? ==>
                totals == Recount(cfg.policy.rollback.value, WindowAt(cfg, log, now))
      ensures cfg.policy.rollback.None? ==> totals == Samples(0, 0, 0)
    {
      hide WellFormed, Step, LongestFit, Fits, Recount, Ordered, Coupled;
      StepOnOthers(cfg, View(), Report(now));
      key := SampleKey(identity, policyHash, progress.stage, progress.startedAt);
      if cfg.policy.rollback.None? {
        clock := now;
        return key, Samples(0, 0, 0);
      }
      var rule := cfg.policy.rollback.value;
      CoupledLater(rule, log, window.samples, window.totals, prunedAt, clock, now);
      clock := now;
      Expire(rule, now);
      totals := window.totals;
    }

    method Expire(rule: Rollback, now: nat)
      requires Coupled(rule, log, window.samples, window.totals, prunedAt, now)
      modifies `prunedAt, window`samples, window`totals
      ensures prunedAt == now
      ensures Coupled(rule, log, window.samples, window.totals, now, now)
      ensures window.samples == LongestFit(Fits(rule, now), log)
      ensures window.totals == Recount(rule, window.samples)
    {
      hide LongestFit, Fits, Recount, Ordered, Coupled;
      CoupledCut(rule, log, window.samples, window.totals, prunedAt, now);
      prunedAt := now;
      window.Prune(now, rule);
    }

    /** `sync_progress`: an absent record means the default one, one of another policy is disregarded,
        an unreadable or improper one is an error. A new stage or start time empties the window, and
        nothing ever releases the latch. */
    method SyncProgress(value: Option<Result<ProgressRecord>>) returns (result: Result<()>)
      requires Valid()
      modifies this, window
      ensures Valid() && clock == old(clock) && cursor == old(cursor)
      ensures result.Err? <==>
                value.Some? && (value.value.Err? || (Ours(value.value.value) && !Proper(cfg.policy, value.value.value)))
      ensures value.Some? && value.value.Ok?
              && (value.value.value.revision != cfg.policy.revision || value.value.value.policyHash != policyHash) ==>
                result.Ok? && progress == old(progress)
      ensures if result.Err? || (value.Some? && !Ours(value.value.value))
              then progress == old(progress) && View() == old(View())
              else
                && progress == (if value.Some? then value.value.value else NO_PROGRESS)
                && View() == Step(cfg, old(View()), Progress(progress.stage, progress.startedAt)).0
    {
      hide WellFormed, Step, LongestFit, Fits;
      var next := NO_PROGRESS;
      if value.Some? {
        if value.value.Err? {
          return Err("unreadable rollout progress");
        }
        next := value.value.value;
        if !Ours(next) {
          return Ok(());
        }
        if !Proper(cfg.policy, next) {
          return Err("invalid rollout progress");
        }
      }
      StepOnOthers(cfg, View(), Progress(next.stage, next.startedAt));
      var changed := progress.stage != next.stage || progress.startedAt != next.startedAt;
      progress := next;
      if changed {
        window.samples := [];
        window.totals := Samples(0, 0, 0);
        log := [];
      }
      return Ok(());
    }

    method ForceRollback()
      requires Valid()
      modifies window
      ensures Valid()
      ensures View() == Step(cfg, old(View()), Event.ForceRollback).0
    {
      hide WellFormed, Step, LongestFit, Fits, Recount, Ordered;
      StepOnOthers(cfg, View(), Event.ForceRollback);
      if cfg.policy.rollback.Some? {
        window.rolledBack := true;
        window.reason := "persisted rollback";
      }
    }

    /** After a rollback every backend, even one chosen by a script, becomes the fallback. */
    method Enforce(backend: string) returns (chosen: string)
      requires Valid()
      ensures View().latched ==>
                cfg.policy.rollback.Some? && chosen == cfg.backends[cfg.policy.rollback.value.fallback]
      ensures !View().latched ==> chosen == backend
    {
      if window.rolledBack {
        return cfg.backends[cfg.policy.rollback.value.fallback];
      }
      chosen := backend;
    }

    /** `select_at`: a rolled-back release always yields the fallback; otherwise the scan finds
        the owner of the slot and never runs past the last target. `bucket` is the request's
        cohort hash reduced modulo 10000. */
    method SelectAt(bucket: nat, cursor: nat) returns (chosen: string)
      requires Valid() && bucket < BUCKETS
      ensures View().latched ==>
                cfg.policy.rollback.Some? && chosen == cfg.backends[cfg.policy.rollback.value.fallback]
      ensures !View().latched ==> chosen == Chosen(cfg, progress.stage, bucket, cursor)
    {
      hide Accepted, LongestFit, Fits, Recount, Ordered, Coupled;
      ServicesResolve(cfg);
      if window.rolledBack {
        return cfg.backends[cfg.policy.rollback.value.fallback];
      }
      StageTotalBounds(cfg.policy, progress.stage);
      var weights := StageWeights(cfg.policy, progress.stage);
      var total := Total(weights);
      var n: nat := if cfg.policy.cohort.Some? then CohortSlot(bucket, total) else cursor % total;
      ghost var slot := n;
      var i := 0;
      while i < |weights|
        invariant i <= |weights| && n + Prefix(weights, i) == slot < total
      {
        if n < weights[i].weight {
          OwnerUnique(weights, i, Pick(weights, slot), slot);
          return cfg.backends[weights[i].service];
        }
        n := n - weights[i].weight;
        i := i + 1;
      }
      assert false;
    }

    /** `select` draws the next cursor value, wrapping at 2^64. */
    method Select(bucket: nat) returns (chosen: string)
      requires Valid() && bucket < BUCKETS
      modifies this`cursor
      ensures Valid() && cursor == (old(cursor) + 1) % U64
      ensures View() == old(View())
      ensures View().latched ==>
                cfg.policy.rollback.Some? && chosen == cfg.backends[cfg.policy.rollback.value.fallback]
      ensures !View().latched ==> chosen == Chosen(cfg, progress.stage, bucket, old(cursor))
    {
      var at := cursor;
      cursor := (cursor + 1) % U64;
      chosen := SelectAt(bucket, at);
    }
  }
}
