/** Which backend a request is sent to at a stage, and how much of the traffic each backend gets. */
module StageSelection {
  import opened Options
  import opened Counting
  import opened RolloutPolicy
  import opened RolloutSelection
  import opened RolloutMachine

  /** The slot a request occupies: its cohort bucket when the policy has one, else the cursor. */
  ghost function SlotOf(cfg: Config, stage: nat, bucket: nat, cursor: nat): (n: nat)
    requires bucket < BUCKETS
    ensures n < Total(StageWeights(cfg.policy, stage))
  {
    StageTotalBounds(cfg.policy, stage);
    var total := Total(StageWeights(cfg.policy, stage));
    if cfg.policy.cohort.Some? then CohortSlot(bucket, total) else cursor % total
  }

  /** The backend of the slot's owner. */
  ghost function Chosen(cfg: Config, stage: nat, bucket: nat, cursor: nat): string
    requires bucket < BUCKETS
  {
    var ws := StageWeights(cfg.policy, stage);
    cfg.backends[ws[Pick(ws, SlotOf(cfg, stage, bucket, cursor))].service]
  }

  function Backend(cfg: Config, i: nat): string
    requires i < |cfg.policy.backends|
  {
    cfg.backends[cfg.policy.backends[i].service]
  }

  ghost predicate DistinctBackends(cfg: Config) {
    forall i, j | 0 <= i < j < |cfg.policy.backends| :: Backend(cfg, i) != Backend(cfg, j)
  }

  /** The weights of one stage, declared target by declared target: those the policy gives for the
      stage, or the declared ones when it has no such stage. */
  ghost predicate InForce(policy: Policy, stage: nat, weights: seq<nat>) {
    && |weights| == |policy.backends|
    && forall i | 0 <= i < |weights| ::
         if stage < |policy.stages|
         then policy.backends[i].service in policy.stages[stage].weights
              && weights[i] == policy.stages[stage].weights[policy.backends[i].service]
         else weights[i] == policy.backends[i].weight
  }

  function Sum(weights: seq<nat>): nat {
    if weights == [] then 0 else Sum(weights[..|weights| - 1]) + weights[|weights| - 1]
  }

  lemma {:induction false} SumIsPrefix(ws: seq<Target>, weights: seq<nat>, n: nat)
    requires n <= |ws| == |weights| && forall i | 0 <= i < |ws| :: ws[i].weight == weights[i]
    ensures Sum(weights[..n]) == Prefix(ws, n)
    decreases n
  {
    if n > 0 {
      assert weights[..n][..n - 1] == weights[..n - 1];
      SumIsPrefix(ws, weights, n - 1);
    }
  }

  /** The engine's weights are the ones in force. */
  lemma WeightsInForce(policy: Policy, stage: nat, weights: seq<nat>)
    requires Accepted(policy) && InForce(policy, stage, weights)
    ensures var ws := StageWeights(policy, stage);
            && |ws| == |weights| && Total(ws) == Sum(weights) > 0
            && forall i | 0 <= i < |ws| :: ws[i].weight == weights[i] && ws[i].service == policy.backends[i].service
  {
    var ws := StageWeights(policy, stage);
    SumIsPrefix(ws, weights, |ws|);
    assert weights[..|ws|] == weights;
    StageTotalBounds(policy, stage);
  }

  /** The cursor values that send a request to the i-th declared target's backend. */
  ghost function ByCursor(cfg: Config, stage: nat, bucket: nat, i: nat): int -> bool
    requires bucket < BUCKETS && i < |cfg.policy.backends|
  {
    c => c >= 0 && Chosen(cfg, stage, bucket, c) == Backend(cfg, i)
  }

  /** The cohort buckets that do. */
  ghost function ByBucket(cfg: Config, stage: nat, cursor: nat, i: nat): int -> bool
    requires i < |cfg.policy.backends|
  {
    h => 0 <= h < BUCKETS && Chosen(cfg, stage, h, cursor) == Backend(cfg, i)
  }

  lemma ChosenIsOwner(cfg: Config, stage: nat, bucket: nat, cursor: nat, i: nat)
    requires bucket < BUCKETS && i < |cfg.policy.backends| && DistinctBackends(cfg)
    ensures Chosen(cfg, stage, bucket, cursor) == Backend(cfg, i)
            <==> Owns(StageWeights(cfg.policy, stage), i, SlotOf(cfg, stage, bucket, cursor))
  {
    hide Accepted, SlotOf;
    ServicesResolve(cfg);
    var ws, slot := StageWeights(cfg.policy, stage), SlotOf(cfg, stage, bucket, cursor);
    var owner := Pick(ws, slot);
    assert Chosen(cfg, stage, bucket, cursor) == Backend(cfg, owner);
    if Owns(ws, i, slot) {
      OwnerUnique(ws, owner, i, slot);
    } else {
      assert owner != i;
      assert owner < i ==> Backend(cfg, owner) != Backend(cfg, i);
      assert i < owner ==> Backend(cfg, i) != Backend(cfg, owner);
    }
  }

  /** Without a cohort, any round of cursor values as long as the sum of the weights in force sends
      each backend exactly as many requests as its weight in force. */
  lemma RoundFollowsStage(cfg: Config, stage: nat, weights: seq<nat>, bucket: nat, start: nat, i: nat)
    requires cfg.policy.cohort.None? && DistinctBackends(cfg) && bucket < BUCKETS
    requires InForce(cfg.policy, stage, weights) && i < |weights|
    ensures CountRange(ByCursor(cfg, stage, bucket, i), start, start + Sum(weights)) == weights[i]
  {
    hide Accepted, Sum;
    WeightsInForce(cfg.policy, stage, weights);
    var ws := StageWeights(cfg.policy, stage);
    RoundRobinExact(ws, i, start);
    forall c | start <= c < start + Sum(weights)
      ensures ByCursor(cfg, stage, bucket, i)(c) == OnTurn(ws, i)(c)
    {
      ChosenIsOwner(cfg, stage, bucket, c, i);
    }
    CountRangeEqual(ByCursor(cfg, stage, bucket, i), OnTurn(ws, i), start, start + Sum(weights));
  }

  /** With a cohort, each backend owns within one of its share of the 10000 buckets, whatever the cursor. */
  lemma CohortsFollowStage(cfg: Config, stage: nat, weights: seq<nat>, cursor: nat, i: nat)
    requires cfg.policy.cohort.Some? && DistinctBackends(cfg)
    requires InForce(cfg.policy, stage, weights) && i < |weights|
    ensures var owned, total := CountRange(ByBucket(cfg, stage, cursor, i), 0, 10000), Sum(weights);
            10000 * weights[i] - total < owned * total < 10000 * weights[i] + total
  {
    hide Accepted, Sum, CountRange;
    WeightsInForce(cfg.policy, stage, weights);
    var ws := StageWeights(cfg.policy, stage);
    CohortShare(ws, i);
    forall h | 0 <= h < BUCKETS ensures ByBucket(cfg, stage, cursor, i)(h) == InCohort(ws, i)(h) {
      ChosenIsOwner(cfg, stage, h, cursor, i);
    }
    CountRangeEqual(ByBucket(cfg, stage, cursor, i), InCohort(ws, i), 0, BUCKETS);
  }
}
