/** A release as a state machine over the full log of accepted samples: no window, no totals,
    only sorting and cutting. The claims about whole runs are proved here; the class that keeps
    an incremental window is proved to follow this machine. */
module RolloutMachine {
  import opened Options
  import opened Suffixes
  import opened RolloutPolicy
  import opened RolloutWindow

  /** A policy together with the backend each declared service resolves to. */
  datatype Resolved = Resolved(policy: Policy, backends: map<string, string>)

  ghost predicate WellFormed(cfg: Resolved) {
    && Accepted(cfg.policy)
    && forall i | 0 <= i < |cfg.policy.backends| :: cfg.policy.backends[i].service in cfg.backends
  }

  /** An accepted policy all of whose services are resolved. */
  type Config = cfg: Resolved | WellFormed(cfg)
    witness Resolved(Policy("r", [Target("s", 1)], None, [], None), map["s" := "s"])

  lemma ServicesResolve(cfg: Config)
    ensures forall i | 0 <= i < |cfg.policy.backends| :: cfg.policy.backends[i].service in cfg.backends
    ensures cfg.policy.rollback.Some? ==>
              cfg.policy.rollback.value.fallback in cfg.backends && cfg.policy.rollback.value.minRequests > 0
  {
  }

  /** `log` holds every accepted sample since the last stage change. */
  datatype Track = Track(log: seq<Sample>, stage: nat, startedAt: int)

  datatype Model = Model(track: Track, latched: bool, reason: string)

  datatype Event =
    | Completed(backend: string, failed: bool, elapsed: nat, stage: nat, now: nat)
    | Report(now: nat)
    | Progress(stage: nat, startedAt: int)
    | ForceRollback

  const START := Track([], 0, 0)

  ghost function Fallback(cfg: Config): string
    requires cfg.policy.rollback.Some?
  {
    cfg.backends[cfg.policy.rollback.value.fallback]
  }

  /** A completion of the current stage by a declared target other than the fallback. */
  ghost predicate Counted(cfg: Config, track: Track, e: Event)
  {
    && e.Completed?
    && e.stage == track.stage
    && cfg.policy.rollback.Some?
    && Fallback(cfg) != e.backend
    && exists i | 0 <= i < |cfg.policy.backends| :: cfg.backends[cfg.policy.backends[i].service] == e.backend
  }

  ghost function TrackStep(cfg: Config, track: Track, e: Event): Track
  {
    if Counted(cfg, track, e) then track.(log := track.log + [Sample(e.now, e.failed, e.elapsed)])
    else if e.Progress? && (e.stage != track.stage || e.startedAt != track.startedAt)
    then Track([], e.stage, e.startedAt)
    else track
  }

  /** The window a completion is judged by, recomputed from the whole log. */
  ghost function WindowAt(cfg: Config, log: seq<Sample>, now: nat): seq<Sample>
    requires cfg.policy.rollback.Some?
  {
    LongestFit(Fits(cfg.policy.rollback.value, now), log)
  }

  ghost predicate Breaches(cfg: Config, track: Track, e: Event)
  {
    && Counted(cfg, track, e)
    && Trips(cfg.policy.rollback.value, WindowAt(cfg, TrackStep(cfg, track, e).log, e.now))
  }

  ghost function Reason(cfg: Config, w: seq<Sample>): string
    requires cfg.policy.rollback.Some?
  {
    if ErrorTrip(cfg.policy.rollback.value, w) then "error threshold" else "p95 threshold"
  }

  /** One call; the second result is what `completed` returns. A latched release ignores samples. */
  ghost function Step(cfg: Config, m: Model, e: Event): (Model, bool)
  {
    if e.ForceRollback? then
      (if cfg.policy.rollback.Some? then m.(latched := true, reason := "persisted rollback") else m, false)
    else if e.Completed? && m.latched then (m, false)
    else
      var track := TrackStep(cfg, m.track, e);
      if Breaches(cfg, m.track, e)
      then (Model(track, true, Reason(cfg, WindowAt(cfg, track.log, e.now))), true)
      else (m.(track := track), false)
  }

  lemma StepOnUncounted(cfg: Config, m: Model, e: Event)
    requires e.Completed? && (m.latched || !Counted(cfg, m.track, e))
    ensures Step(cfg, m, e) == (m, false)
  {
  }

  lemma StepOnOthers(cfg: Config, m: Model, e: Event)
    requires !e.Completed?
    ensures e.Report? ==> Step(cfg, m, e) == (m, false)
    ensures e.Progress? ==> Step(cfg, m, e) == (m.(track := TrackStep(cfg, m.track, e)), false)
    ensures e.ForceRollback? && cfg.policy.rollback.Some? ==>
              Step(cfg, m, e) == (m.(latched := true, reason := "persisted rollback"), false)
    ensures e.ForceRollback? && cfg.policy.rollback.None? ==> Step(cfg, m, e) == (m, false)
  {
  }

  /** The machine's answer to a counted sample, given the window that sample is judged by. */
  lemma StepOnCounted(cfg: Config, m: Model, e: Event, w: seq<Sample>)
    requires !m.latched && Counted(cfg, m.track, e)
    requires w == WindowAt(cfg, m.track.log + [Sample(e.now, e.failed, e.elapsed)], e.now)
    ensures var track := m.track.(log := m.track.log + [Sample(e.now, e.failed, e.elapsed)]);
            Step(cfg, m, e) ==
            if Trips(cfg.policy.rollback.value, w) then (Model(track, true, Reason(cfg, w)), true)
            else (m.(track := track), false)
  {
  }

  ghost function Run(cfg: Config, es: seq<Event>): Model
  {
    if es == [] then Model(START, false, "")
    else Step(cfg, Run(cfg, es[..|es| - 1]), es[|es| - 1]).0
  }

  /** What the i-th call of a run returned. */
  ghost predicate Returned(cfg: Config, es: seq<Event>, i: nat)
    requires i < |es|
  {
    ReturnedAfter(cfg, Run(cfg, es[..i]), es[i])
  }

  ghost predicate ReturnedAfter(cfg: Config, m: Model, e: Event)
  {
    Step(cfg, m, e).1
  }

  /** The log and stage a run reaches, computed without regard to any rollback. */
  ghost function FreeTrack(cfg: Config, es: seq<Event>): Track
  {
    if es == [] then START else TrackStep(cfg, FreeTrack(cfg, es[..|es| - 1]), es[|es| - 1])
  }

  /** The i-th call is an accepted candidate sample at which the recounted window meets the thresholds. */
  ghost predicate BreachAt(cfg: Config, es: seq<Event>, i: nat)
    requires i < |es|
  {
    Breaches(cfg, FreeTrack(cfg, es[..i]), es[i])
  }

  ghost predicate ForcedAt(cfg: Config, es: seq<Event>, i: nat)
    requires i < |es|
  {
    es[i].ForceRollback? && cfg.policy.rollback.Some?
  }

  ghost predicate Decisive(cfg: Config, es: seq<Event>, i: nat)
    requires i < |es|
  {
    BreachAt(cfg, es, i) || ForcedAt(cfg, es, i)
  }

  lemma DecisivePrefix(cfg: Config, es: seq<Event>, n: nat, i: nat)
    requires i < n <= |es|
    ensures Decisive(cfg, es[..n], i) == Decisive(cfg, es, i)
    ensures BreachAt(cfg, es[..n], i) == BreachAt(cfg, es, i)
  {
    assert es[..n][..i] == es[..i];
  }

  lemma StepLatches(cfg: Config, m: Model, e: Event)
    requires !m.latched
    ensures var forced := e.ForceRollback? && cfg.policy.rollback.Some?;
            Step(cfg, m, e).0.latched <==> Breaches(cfg, m.track, e) || forced
    ensures !Step(cfg, m, e).0.latched ==> Step(cfg, m, e).0.track == TrackStep(cfg, m.track, e)
  {
  }

  lemma LastDecides(cfg: Config, es: seq<Event>)
    requires es != []
    requires var before := Run(cfg, es[..|es| - 1]);
             !before.latched && before.track == FreeTrack(cfg, es[..|es| - 1])
    ensures Run(cfg, es).latched <==> Decisive(cfg, es, |es| - 1)
    ensures !Run(cfg, es).latched ==> Run(cfg, es).track == FreeTrack(cfg, es)
  {
    hide Step, Breaches, TrackStep;
    StepLatches(cfg, Run(cfg, es[..|es| - 1]), es[|es| - 1]);
  }

  /** A release is rolled back exactly when some earlier call breached or forced it; until then
      the machine's log is the free log. */
  lemma {:induction false} LatchedIffBreached(cfg: Config, es: seq<Event>)
    ensures Run(cfg, es).latched <==> exists i :: 0 <= i < |es| && Decisive(cfg, es, i)
    ensures !Run(cfg, es).latched ==> Run(cfg, es).track == FreeTrack(cfg, es)
    decreases |es|
  {
    hide Decisive, Breaches, TrackStep;
    if es != [] {
      var last := |es| - 1;
      LatchedIffBreached(cfg, es[..last]);
      if Run(cfg, es[..last]).latched {
        var i :| 0 <= i < last && Decisive(cfg, es[..last], i);
        DecisivePrefix(cfg, es, last, i);
      } else {
        forall i | 0 <= i < last ensures !Decisive(cfg, es, i) {
          DecisivePrefix(cfg, es, last, i);
        }
        LastDecides(cfg, es);
      }
    }
  }

  /** `completed` returns true exactly at the first breach of a run that was not forced before. */
  lemma ReturnsTrueAtFirstBreach(cfg: Config, es: seq<Event>, i: nat)
    requires i < |es|
    ensures Returned(cfg, es, i) <==>
            BreachAt(cfg, es, i) && forall j | 0 <= j < i :: !Decisive(cfg, es, j)
  {
    LatchedIffBreached(cfg, es[..i]);
    forall j | 0 <= j < i ensures Decisive(cfg, es[..i], j) == Decisive(cfg, es, j) {
      DecisivePrefix(cfg, es, i, j);
    }
  }

  /** It returns true at most once, and never in a release already rolled back. */
  lemma ReturnsTrueAtMostOnce(cfg: Config, es: seq<Event>, i: nat, j: nat)
    requires i < j < |es|
    requires Returned(cfg, es, i)
    ensures !Returned(cfg, es, j) && Run(cfg, es[..j]).latched
  {
    ReturnsTrueAtFirstBreach(cfg, es, i);
    ReturnsTrueAtFirstBreach(cfg, es, j);
    LatchedIffBreached(cfg, es[..j]);
    DecisivePrefix(cfg, es, j, i);
  }

  /** Rollback is one-way, and a rolled-back release always has a rollback rule. */
  lemma {:induction false} LatchIsOneWay(cfg: Config, es: seq<Event>, later: seq<Event>)
    requires Run(cfg, es).latched
    ensures Run(cfg, es + later).latched && cfg.policy.rollback.Some?
    decreases |later|
  {
    if later == [] {
      assert es + later == es;
      LatchedIffBreached(cfg, es);
    } else {
      var all := es + later;
      assert all[..|all| - 1] == es + later[..|later| - 1];
      LatchIsOneWay(cfg, es, later[..|later| - 1]);
    }
  }

  lemma RunSnoc(cfg: Config, es: seq<Event>, e: Event)
    ensures Run(cfg, es + [e]) == Step(cfg, Run(cfg, es), e).0
  {
    assert (es + [e])[..|es|] == es;
  }

  lemma UncountedIsIgnored(cfg: Config, before: seq<Event>, e: Event)
    requires e.Completed? && !Counted(cfg, Run(cfg, before).track, e)
    ensures Run(cfg, before + [e]) == Run(cfg, before) && !ReturnedAfter(cfg, Run(cfg, before), e)
  {
    hide Run, Counted;
    RunSnoc(cfg, before, e);
    StepOnUncounted(cfg, Run(cfg, before), e);
  }

  /** A fallback, unknown-backend or other-stage completion leaves the rest of the run as if it
      had not happened, and itself returns false. */
  lemma {:induction false} UncountedHasNoEffect(cfg: Config, before: seq<Event>, e: Event, after: seq<Event>)
    requires e.Completed? && !Counted(cfg, Run(cfg, before).track, e)
    ensures Run(cfg, before + [e] + after) == Run(cfg, before + after)
    ensures !Returned(cfg, before + [e] + after, |before|)
    decreases |after|
  {
    hide Run, Step, Counted, ReturnedAfter;
    UncountedIsIgnored(cfg, before, e);
    assert (before + [e] + after)[..|before|] == before;
    if after == [] {
      assert before + [e] + after == before + [e] && before + after == before;
    } else {
      var front, last := after[..|after| - 1], after[|after| - 1];
      assert before + [e] + after == before + [e] + front + [last];
      assert before + after == before + front + [last];
      UncountedHasNoEffect(cfg, before, e, front);
      RunSnoc(cfg, before + [e] + front, last);
      RunSnoc(cfg, before + front, last);
    }
  }

  /** ... so every later call returns what it would have returned. */
  lemma UncountedKeepsReturns(cfg: Config, before: seq<Event>, e: Event, after: seq<Event>, k: nat)
    requires k < |after|
    requires e.Completed? && !Counted(cfg, Run(cfg, before).track, e)
    ensures Returned(cfg, before + [e] + after, |before| + 1 + k) == Returned(cfg, before + after, |before| + k)
  {
    hide Step, TrackStep, Counted, Run;
    var with, without := before + [e] + after, before + after;
    UncountedHasNoEffect(cfg, before, e, after[..k]);
    assert with[..|before| + 1 + k] == before + [e] + after[..k] && with[|before| + 1 + k] == after[k];
    assert without[..|before| + k] == before + after[..k] && without[|before| + k] == after[k];
  }

  /** A completion under no rule, by the fallback's backend, by a backend no declared service has, or
      of another stage than the one in force returns false and leaves the rest of any run, and all it
      returns, as if it had not happened. */
  lemma OtherCompletionsAreIgnored(cfg: Config, before: seq<Event>, e: Event, after: seq<Event>)
    requires e.Completed?
    requires || cfg.policy.rollback.None?
             || e.backend == cfg.backends[cfg.policy.rollback.value.fallback]
             || (forall i | 0 <= i < |cfg.policy.backends| :: cfg.backends[cfg.policy.backends[i].service] != e.backend)
             || e.stage != Run(cfg, before).track.stage
    ensures Run(cfg, before + [e] + after) == Run(cfg, before + after)
    ensures !Returned(cfg, before + [e] + after, |before|)
    ensures forall j | |before| <= j < |before| + |after| ::
              Returned(cfg, before + [e] + after, j + 1) == Returned(cfg, before + after, j)
  {
    hide Counted, Run, Returned, WellFormed;
    OtherIsUncounted(cfg, Run(cfg, before).track, e);
    UncountedHasNoEffect(cfg, before, e, after);
    forall j | |before| <= j < |before| + |after|
      ensures Returned(cfg, before + [e] + after, j + 1) == Returned(cfg, before + after, j)
    {
      UncountedKeepsReturns(cfg, before, e, after, j - |before|);
    }
  }

  lemma OtherIsUncounted(cfg: Config, track: Track, e: Event)
    requires e.Completed?
    requires || cfg.policy.rollback.None?
             || e.backend == cfg.backends[cfg.policy.rollback.value.fallback]
             || (forall i | 0 <= i < |cfg.policy.backends| :: cfg.backends[cfg.policy.backends[i].service] != e.backend)
             || e.stage != track.stage
    ensures !Counted(cfg, track, e)
  {
  }

  /** Every other completion of a release not yet rolled back is one sample more, and rolls it back,
      returning true, exactly when the window of the log as it then stands meets the thresholds. */
  lemma CandidateCompletionsCount(cfg: Config, before: seq<Event>, e: Event)
    requires e.Completed? && cfg.policy.rollback.Some? && !Run(cfg, before).latched
    requires e.stage == Run(cfg, before).track.stage
    requires e.backend != cfg.backends[cfg.policy.rollback.value.fallback]
    requires exists i | 0 <= i < |cfg.policy.backends| :: cfg.backends[cfg.policy.backends[i].service] == e.backend
    ensures var rule, track, after := cfg.policy.rollback.value, Run(cfg, before).track, Run(cfg, before + [e]);
            && after.track == track.(log := track.log + [Sample(e.now, e.failed, e.elapsed)])
            && after.latched == ReturnedAfter(cfg, Run(cfg, before), e)
            && (after.latched <==> Trips(rule, LongestFit(Fits(rule, e.now), after.track.log)))
  {
    hide Run, Trips, LongestFit, Fits;
    RunSnoc(cfg, before, e);
    var log := Run(cfg, before).track.log + [Sample(e.now, e.failed, e.elapsed)];
    StepOnCounted(cfg, Run(cfg, before), e, WindowAt(cfg, log, e.now));
  }

  /** A new stage or start time forgets the samples; the same ones keep them; the latch stays. */
  lemma ProgressForgetsSamples(cfg: Config, before: seq<Event>, stage: nat, startedAt: int)
    ensures var m, after := Run(cfg, before), Run(cfg, before + [Progress(stage, startedAt)]);
            && after.track.stage == stage && after.track.startedAt == startedAt
            && after.track.log == (if m.track.stage == stage && m.track.startedAt == startedAt then m.track.log else [])
            && after.latched == m.latched && after.reason == m.reason
  {
    hide Run;
    RunSnoc(cfg, before, Progress(stage, startedAt));
  }
}
