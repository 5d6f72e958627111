/** The registry that shares one release state between all snapshots using the same release. */
module RolloutRegistry {
  import opened RolloutMachine
  import opened RolloutState

  /** One lookup: its key, and the keys some caller outside the registry still holds. */
  datatype Request = Request(key: string, held: set<string>)

  /** Which object each key maps to after a lookup; `created` is used only for an absent key. */
  function Retained<S>(states: map<string, S>, r: Request, created: S): (after: map<string, S>)
    ensures after.Keys == states.Keys * r.held + {r.key}
  {
    var kept := map k | k in states && (k == r.key || k in r.held) :: states[k];
    if r.key in states then kept else kept[r.key := created]
  }

  function RunLookups<S>(states: map<string, S>, rs: seq<Request>, created: seq<S>): map<string, S>
    requires |created| == |rs|
    decreases |rs|
  {
    if rs == [] then states
    else RunLookups(Retained(states, rs[0], created[0]), rs[1..], created[1..])
  }

  /** A release that is held, or asked for, at every lookup keeps its object and so its latch. */
  lemma {:induction false} HeldStateSurvives<S>(
      states: map<string, S>, rs: seq<Request>, created: seq<S>, key: string)
    requires |created| == |rs| && key in states
    requires forall i | 0 <= i < |rs| :: key == rs[i].key || key in rs[i].held
    ensures var after := RunLookups(states, rs, created);
            key in after && after[key] == states[key]
    decreases |rs|
  {
    if rs != [] {
      HeldStateSurvives(Retained(states, rs[0], created[0]), rs[1..], created[1..], key);
    }
  }

  class Rollouts {
    var states: map<string, State>

    constructor ()
      ensures states == map[]
    {
      states := map[];
    }

    /** `key` names kind, owner, uid and a digest of policy and backends. */
    method GetFor(key: string, cfg: Config, identity: string, policyHash: string, held: set<string>) returns (state: State)
      modifies this
      ensures states == Retained(old(states), Request(key, held), state)
      ensures states[key] == state
      ensures forall k :: k in states <==> k == key || (k in old(states) && k in held)
      ensures forall k | k in states && k in old(states) :: states[k] == old(states)[k]
      ensures key !in old(states) ==>
                && fresh(state) && state.Valid() && state.View() == Run(cfg, [])
                && state.cfg == cfg && state.identity == identity && state.policyHash == policyHash
    {
      states := map k | k in states && (k == key || k in held) :: states[k];
      if key !in states {
        var created := new State(cfg, identity, policyHash);
        states := states[key := created];
      }
      state := states[key];
    }
  }
}
