/** The release policy as accepted by the parser, and the weights in force at a stage. */
module RolloutPolicy {
  import opened Options

  datatype Target = Target(service: string, weight: nat)

  datatype Rollback = Rollback(
    fallback: string,
    minRequests: nat,
    errorPercent: nat,
    windowSeconds: nat,
    maxP95: Option<nat>)

  datatype Stage = Stage(weights: map<string, nat>, durationSeconds: nat, minRequests: nat)

  datatype Policy = Policy(
    revision: string,
    backends: seq<Target>,
    rollback: Option<Rollback>,
    stages: seq<Stage>,
    cohort: Option<string>)

  /** Sum of the first j weights. */
  function Prefix(ws: seq<Target>, j: nat): nat
    requires j <= |ws|
  {
    if j == 0 then 0 else Prefix(ws, j - 1) + ws[j - 1].weight
  }

  function Total(ws: seq<Target>): nat {
    Prefix(ws, |ws|)
  }

  predicate Declares(policy: Policy, service: string) {
    exists i | 0 <= i < |policy.backends| :: policy.backends[i].service == service
  }

  predicate AcceptedStage(policy: Policy, stage: Stage) {
    && (forall k | k in stage.weights :: Declares(policy, k) && stage.weights[k] <= 10000)
    && (forall i | 0 <= i < |policy.backends| :: policy.backends[i].service in stage.weights)
    && (exists k | k in stage.weights :: stage.weights[k] > 0)
    && stage.durationSeconds <= 86400 && stage.minRequests <= 10000
  }

  /** The checks of the policy parser on the fields modelled here. */
  predicate Accepted(policy: Policy) {
    && 1 <= |policy.revision| <= 64
    && 1 <= |policy.backends| <= 8
    && (forall i | 0 <= i < |policy.backends| :: policy.backends[i].weight <= 10000)
    && Total(policy.backends) > 0
    && (forall i, j | 0 <= i < j < |policy.backends| ::
          policy.backends[i].service != policy.backends[j].service)
    && (policy.rollback.Some? ==>
          var rule := policy.rollback.value;
          && Declares(policy, rule.fallback)
          && 1 <= rule.minRequests <= 10000
          && 1 <= rule.errorPercent <= 100
          && 1 <= rule.windowSeconds <= 3600
          && (rule.maxP95.Some? ==> 1 <= rule.maxP95.value <= 3600000))
    && |policy.stages| <= 16
    && (forall k | 0 <= k < |policy.stages| ::
          policy.rollback.Some? && AcceptedStage(policy, policy.stages[k]))
  }

  /** The declared targets, in declaration order, with the weights of the given stage. */
  function StageWeights(policy: Policy, stage: nat): (ws: seq<Target>)
    requires Accepted(policy)
    ensures |ws| == |policy.backends|
    ensures forall i | 0 <= i < |ws| :: ws[i].service == policy.backends[i].service
  {
    seq(|policy.backends|, i requires 0 <= i < |policy.backends| =>
      var target := policy.backends[i];
      if stage < |policy.stages|
      then Target(target.service, policy.stages[stage].weights[target.service])
      else target)
  }

  lemma {:induction false} PrefixMonotone(ws: seq<Target>, i: nat, j: nat)
    requires i <= j <= |ws|
    ensures Prefix(ws, i) <= Prefix(ws, j)
    decreases j
  {
    if i < j {
      PrefixMonotone(ws, i, j - 1);
    }
  }

  lemma {:induction false} PrefixBounded(ws: seq<Target>, j: nat)
    requires j <= |ws|
    requires forall i | 0 <= i < |ws| :: ws[i].weight <= 10000
    ensures Prefix(ws, j) <= 10000 * j
  {
    if j > 0 {
      PrefixBounded(ws, j - 1);
    }
  }

  /** Every accepted policy has, at every stage, a positive total of at most 80000. */
  lemma StageTotalBounds(policy: Policy, stage: nat)
    requires Accepted(policy)
    ensures 0 < Total(StageWeights(policy, stage)) <= 80000
  {
    var ws := StageWeights(policy, stage);
    PrefixBounded(ws, |ws|);
    if stage < |policy.stages| {
      var step := policy.stages[stage];
      assert AcceptedStage(policy, step);
      var k :| k in step.weights && step.weights[k] > 0;
      var i :| 0 <= i < |policy.backends| && policy.backends[i].service == k;
      assert ws[i].weight > 0;
      PrefixMonotone(ws, i + 1, |ws|);
    } else {
      assert ws == policy.backends;
    }
  }
}
