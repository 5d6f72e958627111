/** A backend's endpoint pool: DNS refresh, probe results and the health summary. */
module BackendPool {
  import opened Options
  import opened Counting
  import opened EndpointHealth
  import SelectionCache
  import ResultInterleavings

  /** A socket address, numbered by its place in the sort order of addresses. */
  type Address = nat

  /** A configured origin: a literal address, or a host name that must be looked up. */
  datatype Origin = Origin(literal: Option<Address>, weight: nat)

  /** What a lookup gave: addresses already joined with the origin's port. */
  datatype Answer = Answer(addresses: seq<Address>, validUntil: int)

  datatype Entry = Entry(address: Address, weight: nat, state: EndpointState)

  /** A cached selection: the entries that may be chosen, the revision read before they were tested,
      and the instant the first running cooldown among the entries ends. */
  datatype Selection = Selection(eligible: seq<Entry>, revision: nat, expires: Option<int>)

  /** `dnsAge` is the time since the last complete refresh, absent when nothing is looked up. */
  datatype Summary = Summary(
    endpoints: nat, eligible: nat, ejected: nat, unready: nat, active: nat, dnsAge: Option<int>)

  const SECOND: int := 1000000000

  /** The addresses the i-th origin contributes; a literal never needs its lookup. */
  function Contribution(origins: seq<Origin>, answers: seq<Option<Answer>>, i: nat): Option<seq<Address>>
    requires i < |origins| == |answers|
  {
    if origins[i].literal.Some? then Some([origins[i].literal.value])
    else if answers[i].Some? then Some(answers[i].value.addresses)
    else None
  }

  predicate AllResolved(origins: seq<Origin>, answers: seq<Option<Answer>>)
    requires |origins| == |answers|
  {
    forall i | 0 <= i < |origins| :: Contribution(origins, answers, i).Some?
  }

  /** Address to weight over the first n origins; a later origin overrides an earlier one. */
  function Gathered(origins: seq<Origin>, answers: seq<Option<Answer>>, n: nat): map<Address, nat>
    requires n <= |origins| == |answers|
  {
    if n == 0 then map[]
    else
      var before := Gathered(origins, answers, n - 1);
      var added := Contribution(origins, answers, n - 1);
      if added.None? then before else before + map a | a in added.value :: origins[n - 1].weight
  }

  predicate Names(origins: seq<Origin>, answers: seq<Option<Answer>>, i: nat, a: Address)
    requires i < |origins| == |answers|
  {
    Contribution(origins, answers, i).Some? && a in Contribution(origins, answers, i).value
  }

  /** An address is gathered exactly when some origin names it, with the weight of the last one that does. */
  lemma {:induction false} GatheredIsUnion(origins: seq<Origin>, answers: seq<Option<Answer>>, n: nat, a: Address)
    requires n <= |origins| == |answers|
    ensures a in Gathered(origins, answers, n) <==> exists i :: 0 <= i < n && Names(origins, answers, i, a)
    ensures a in Gathered(origins, answers, n) ==>
              exists i :: 0 <= i < n && Names(origins, answers, i, a)
                && Gathered(origins, answers, n)[a] == origins[i].weight
                && forall j :: i < j < n ==> !Names(origins, answers, j, a)
  {
    if n > 0 {
      hide Gathered, Names;
      GatheredIsUnion(origins, answers, n - 1, a);
      LastGathered(origins, answers, n, a);
      if Names(origins, answers, n - 1, a) {
        assert Gathered(origins, answers, n)[a] == origins[n - 1].weight;
      } else if a in Gathered(origins, answers, n - 1) {
        var i :| 0 <= i < n - 1 && Names(origins, answers, i, a)
          && Gathered(origins, answers, n - 1)[a] == origins[i].weight
          && forall j :: i < j < n - 1 ==> !Names(origins, answers, j, a);
        assert Gathered(origins, answers, n)[a] == origins[i].weight;
      }
    }
  }

  lemma LastGathered(origins: seq<Origin>, answers: seq<Option<Answer>>, n: nat, a: Address)
    requires 0 < n <= |origins| == |answers|
    ensures Names(origins, answers, n - 1, a) ==>
              a in Gathered(origins, answers, n) && Gathered(origins, answers, n)[a] == origins[n - 1].weight
    ensures !Names(origins, answers, n - 1, a) ==>
              && (a in Gathered(origins, answers, n) <==> a in Gathered(origins, answers, n - 1))
              && (a in Gathered(origins, answers, n) ==>
                    Gathered(origins, answers, n)[a] == Gathered(origins, answers, n - 1)[a])
  {
  }

  /** Everything resolved is a literal or has an answer; then exactly the literals and all addresses of
      the answers to the other origins are gathered. */
  lemma AllAnswersAreGathered(origins: seq<Origin>, answers: seq<Option<Answer>>, a: Address)
    requires |origins| == |answers|
    ensures AllResolved(origins, answers) <==>
            forall i | 0 <= i < |origins| :: origins[i].literal.Some? || answers[i].Some?
    ensures a in Gathered(origins, answers, |origins|) <==>
            exists i | 0 <= i < |origins| ::
              || origins[i].literal == Some(a)
              || (origins[i].literal.None? && answers[i].Some? && a in answers[i].value.addresses)
  {
    GatheredIsUnion(origins, answers, |origins|, a);
    forall i | 0 <= i < |origins|
      ensures Names(origins, answers, i, a) <==>
              || origins[i].literal == Some(a)
              || (origins[i].literal.None? && answers[i].Some? && a in answers[i].value.addresses)
    {
    }
    hide Gathered;
  }

  /** The state of the last entry with the given address. */
  ghost function LastState(entries: seq<Entry>, a: Address): Option<EndpointState> {
    if entries == [] then None
    else
      var last := entries[|entries| - 1];
      if last.address == a then Some(last.state) else LastState(entries[..|entries| - 1], a)
  }

  lemma {:induction false} LastStateIsLast(entries: seq<Entry>, a: Address)
    ensures LastState(entries, a).None? <==> forall e | e in entries :: e.address != a
    ensures LastState(entries, a).Some? ==>
              exists i | 0 <= i < |entries| ::
                && entries[i].address == a && LastState(entries, a) == Some(entries[i].state)
                && forall j | i < j < |entries| :: entries[j].address != a
    decreases |entries|
  {
    if entries != [] {
      var n := |entries| - 1;
      LastStateIsLast(entries[..n], a);
      assert entries == entries[..n] + [entries[n]];
    }
  }

  function Addresses(entries: seq<Entry>): (r: seq<Address>)
    ensures |r| == |entries|
    ensures forall i | 0 <= i < |r| :: r[i] == entries[i].address
  {
    seq(|entries|, i requires 0 <= i < |entries| => entries[i].address)
  }

  predicate Ascending(s: seq<Address>) {
    forall i, j | 0 <= i < j < |s| :: s[i] < s[j]
  }

  /** The keys of an ordered map, in order. */
  function InOrder(keys: set<Address>): (s: seq<Address>)
    ensures Ascending(s)
    ensures forall a :: a in s <==> a in keys
  {
    if keys == {} then []
    else
      LeastExists(keys);
      var least :| Least(keys, least);
      [least] + InOrder(keys - {least})
  }

  predicate Least(keys: set<Address>, least: Address) {
    least in keys && forall a | a in keys :: least <= a
  }

  lemma {:induction false} LeastExists(keys: set<Address>)
    requires keys != {}
    ensures exists least :: Least(keys, least)
  {
    var x :| x in keys;
    if keys == {x} {
      assert Least(keys, x);
    } else {
      LeastExists(keys - {x});
      var y :| Least(keys - {x}, y);
      assert forall a | a in keys :: a == x || a in keys - {x};
      assert Least(keys, if x <= y then x else y);
    }
  }

  function Until(answers: seq<Option<Answer>>, origins: seq<Origin>, n: nat, start: int): int
    requires n <= |answers| == |origins|
  {
    if n == 0 then start
    else
      var before := Until(answers, origins, n - 1, start);
      if origins[n - 1].literal.None? && answers[n - 1].Some? && answers[n - 1].value.validUntil < before
      then answers[n - 1].value.validUntil else before
  }

  /** It is the earliest instant at which one of the looked-up answers lapses, and no later than `start`. */
  lemma {:induction false} UntilIsEarliest(answers: seq<Option<Answer>>, origins: seq<Origin>, n: nat, start: int)
    requires n <= |answers| == |origins|
    ensures var until := Until(answers, origins, n, start);
            && until <= start
            && (forall i | 0 <= i < n && origins[i].literal.None? && answers[i].Some? ::
                  until <= answers[i].value.validUntil)
            && (until == start || exists i | 0 <= i < n ::
                  origins[i].literal.None? && answers[i].Some? && until == answers[i].value.validUntil)
    decreases n
  {
    if n > 0 {
      UntilIsEarliest(answers, origins, n - 1, start);
    }
  }

  function Later(a: int, b: int): int {
    if a >= b then a else b
  }

  function Ejected(now: int): ((nat, Health)) -> bool {
    (e: (nat, Health)) => e.1.blockedUntil.Some? && e.1.blockedUntil.value > now
  }

  function Unready(checked: bool): ((nat, Health)) -> bool {
    (e: (nat, Health)) => checked && e.1.activeOk != Some(true)
  }

  function Choosable(checked: bool, now: int): ((nat, Health)) -> bool {
    (e: (nat, Health)) => SelectionCache.Eligible(checked, SelectionCache.Slot(e.0, 0), e.1, now)
  }

  /** What the summary counts: an entry is eligible exactly when a readiness test would accept it, and
      otherwise has no weight, is ejected for a cooldown still running, or is unready for want of a
      good verdict where one is required. */
  lemma SummaryExplains(checked: bool, weight: nat, h: Health, now: int)
    ensures Choosable(checked, now)((weight, h)) == ResultInterleavings.Whole(h, ResultInterleavings.Ready(now, checked, weight)).1
    ensures Choosable(checked, now)((weight, h)) <==>
              weight > 0 && !Ejected(now)((weight, h)) && !Unready(checked)((weight, h))
    ensures Ejected(now)((weight, h)) ==> h.blockedUntil.Some?
    ensures Unready(checked)((weight, h)) ==> checked && h.activeOk != Some(true)
  {
  }

  /** Testing an entry's readiness answers whether it could be chosen before any test of this scan. */
  lemma ReadinessKept(checked: bool, weight: nat, was: Health, cell: Cell, now: int, expires: Option<int>)
    requires Sound(cell) && SelectionCache.Kept(was, cell.health, now)
    ensures var slot := SelectionCache.Slot(weight, 0);
            var (ok, after, expires') := SelectionCache.Test(checked, slot, cell, now, expires);
            && Sound(after) && SelectionCache.Kept(was, after.health, now)
            && (ok <==> SelectionCache.Eligible(checked, slot, was, now))
            && (weight == 0 ==> after == cell)
            && (expires.Some? ==> expires'.Some? && expires'.value <= expires.value)
            && (weight > 0 && after.health.blockedUntil.Some? && after.health.blockedUntil.value > now ==>
                  expires'.Some? && expires'.value <= after.health.blockedUntil.value)
  {
  }

  /** What does not change about maintaining a backend. */
  datatype Plan = Plan(origins: seq<Origin>, checked: bool, healthInterval: nat)

  datatype Schedule = Schedule(nextDns: int, dnsSuccess: int, nextHealth: int)

  /** One call of `maintain`, and what the lookups would give; without a resolver there are none. */
  datatype Turn = Turn(now: int, resolver: bool, answers: seq<Option<Answer>>)

  predicate NeedsLookup(origins: seq<Origin>) {
    exists o | o in origins :: o.literal.None?
  }

  predicate DnsDue(plan: Plan, s: Schedule, now: int) {
    NeedsLookup(plan.origins) && now >= s.nextDns
  }

  predicate HealthDue(plan: Plan, s: Schedule, now: int) {
    plan.checked && now >= s.nextHealth
  }

  predicate Refreshes(plan: Plan, t: Turn) {
    t.resolver && |t.answers| == |plan.origins| && AllResolved(plan.origins, t.answers)
  }

  /** When the first of the answers lapses, at most an hour ahead. */
  function Lapses(plan: Plan, t: Turn): int
    requires Refreshes(plan, t)
  {
    Until(t.answers, plan.origins, |plan.origins|, t.now + 3600 * SECOND)
  }

  /** The schedule one turn leaves. */
  function Maintained(plan: Plan, s: Schedule, t: Turn): Schedule {
    Schedule(
      if !DnsDue(plan, s, t.now) then s.nextDns
      else if Refreshes(plan, t) then Later(Lapses(plan, t), t.now + SECOND) else t.now + 5 * SECOND,
      if DnsDue(plan, s, t.now) && Refreshes(plan, t) then t.now else s.dnsSuccess,
      if HealthDue(plan, s, t.now) then t.now + plan.healthInterval else s.nextHealth)
  }

  /** The schedule before the n-th turn. */
  function Before(plan: Plan, s: Schedule, ts: seq<Turn>, n: nat): Schedule
    requires n <= |ts|
  {
    if n == 0 then s else Maintained(plan, Before(plan, s, ts, n - 1), ts[n - 1])
  }

  lemma {:induction false} SchedulesAdvance(plan: Plan, s: Schedule, ts: seq<Turn>, i: nat, j: nat)
    requires i <= j <= |ts|
    ensures Before(plan, s, ts, i).nextDns <= Before(plan, s, ts, j).nextDns
    ensures Before(plan, s, ts, i).nextHealth <= Before(plan, s, ts, j).nextHealth
    decreases j
  {
    hide Refreshes, Lapses, NeedsLookup;
    if i < j {
      SchedulesAdvance(plan, s, ts, i, j - 1);
    }
  }

  lemma BeforeNext(plan: Plan, s: Schedule, ts: seq<Turn>, i: nat)
    requires i < |ts|
    ensures Before(plan, s, ts, i + 1) == Maintained(plan, Before(plan, s, ts, i), ts[i])
  {
  }

  /** Over any run of turns, two lookups are at least a second apart, five seconds when the first
      did not succeed, and otherwise no earlier than one of its answers lapsed. */
  lemma LookupsApart(plan: Plan, s: Schedule, ts: seq<Turn>, i: nat, j: nat)
    requires i < j < |ts|
    requires DnsDue(plan, Before(plan, s, ts, i), ts[i].now) && DnsDue(plan, Before(plan, s, ts, j), ts[j].now)
    ensures ts[j].now >= ts[i].now + SECOND
    ensures if Refreshes(plan, ts[i]) then ts[j].now >= Lapses(plan, ts[i]) else ts[j].now >= ts[i].now + 5 * SECOND
  {
    hide Refreshes, Lapses, NeedsLookup, Before;
    SchedulesAdvance(plan, s, ts, i + 1, j);
    BeforeNext(plan, s, ts, i);
  }

  /** The instant of the next lookup: after a complete refresh once an answer has lapsed or an hour is
      over, but not within a second; after any other turn with a lookup due, five seconds on. */
  predicate LookupTime(plan: Plan, t: Turn, now: int) {
    if t.resolver && |t.answers| == |plan.origins|
       && forall i | 0 <= i < |plan.origins| :: plan.origins[i].literal.Some? || t.answers[i].Some?
    then
      && now >= t.now + 1000000000
      && (now >= t.now + 3600000000000
          || exists i | 0 <= i < |plan.origins| ::
               plan.origins[i].literal.None? && now >= t.answers[i].value.validUntil)
    else now >= t.now + 5000000000
  }

  /** After a turn with a lookup due, the next one is due from exactly that instant on, however many
      turns come between. */
  lemma NextLookupDue(plan: Plan, s: Schedule, ts: seq<Turn>, i: nat, j: nat)
    requires i < j < |ts| && DnsDue(plan, Before(plan, s, ts, i), ts[i].now)
    requires forall m | i < m < j :: !DnsDue(plan, Before(plan, s, ts, m), ts[m].now)
    ensures DnsDue(plan, Before(plan, s, ts, j), ts[j].now) <==> LookupTime(plan, ts[i], ts[j].now)
  {
    hide Before, NeedsLookup, LookupTime, Maintained;
    ScheduleKept(plan, s, ts, i + 1, j);
    BeforeNext(plan, s, ts, i);
    TurnBooks(plan, Before(plan, s, ts, i), ts[i], ts[j].now);
  }

  lemma TurnBooks(plan: Plan, s: Schedule, t: Turn, now: int)
    requires DnsDue(plan, s, t.now)
    ensures now >= Maintained(plan, s, t).nextDns <==> LookupTime(plan, t, now)
  {
    if |t.answers| == |plan.origins| {
      AllAnswersAreGathered(plan.origins, t.answers, 0);
      UntilIsEarliest(t.answers, plan.origins, |plan.origins|, t.now + 3600 * SECOND);
    }
    hide Until, Gathered, AllResolved, NeedsLookup;
  }

  lemma {:induction false} ScheduleKept(plan: Plan, s: Schedule, ts: seq<Turn>, i: nat, j: nat)
    requires i <= j <= |ts|
    requires forall m | i <= m < j :: !DnsDue(plan, Before(plan, s, ts, m), ts[m].now)
    ensures Before(plan, s, ts, j).nextDns == Before(plan, s, ts, i).nextDns
    decreases j
  {
    if i < j {
      hide Before, NeedsLookup, Refreshes, Lapses;
      BeforeNext(plan, s, ts, j - 1);
      ScheduleKept(plan, s, ts, i, j - 1);
    }
  }

  /** After a turn with probes the next are due from exactly one interval later on. */
  lemma NextProbesDue(plan: Plan, s: Schedule, ts: seq<Turn>, i: nat, j: nat)
    requires i < j < |ts| && HealthDue(plan, Before(plan, s, ts, i), ts[i].now)
    requires forall m | i < m < j :: !HealthDue(plan, Before(plan, s, ts, m), ts[m].now)
    ensures HealthDue(plan, Before(plan, s, ts, j), ts[j].now) <==> ts[j].now - ts[i].now >= plan.healthInterval
  {
    hide Before, Refreshes, Lapses, NeedsLookup;
    ProbesKept(plan, s, ts, i + 1, j);
    BeforeNext(plan, s, ts, i);
  }

  lemma {:induction false} ProbesKept(plan: Plan, s: Schedule, ts: seq<Turn>, i: nat, j: nat)
    requires i <= j <= |ts|
    requires forall m | i <= m < j :: !HealthDue(plan, Before(plan, s, ts, m), ts[m].now)
    ensures Before(plan, s, ts, j).nextHealth == Before(plan, s, ts, i).nextHealth
    decreases j
  {
    if i < j {
      hide Before, NeedsLookup, Refreshes, Lapses;
      BeforeNext(plan, s, ts, j - 1);
      ProbesKept(plan, s, ts, i, j - 1);
    }
  }

  /** Lookups are due only for a backend with a host name, probes only with a health check. */
  lemma DueOnlyWhenNeeded(plan: Plan, s: Schedule, now: int)
    ensures (forall i | 0 <= i < |plan.origins| :: plan.origins[i].literal.Some?) ==> !DnsDue(plan, s, now)
    ensures (exists i | 0 <= i < |plan.origins| :: plan.origins[i].literal.None?) ==>
              (DnsDue(plan, s, now) <==> now >= s.nextDns)
    ensures HealthDue(plan, s, now) <==> plan.checked && now >= s.nextHealth
  {
  }

  /** ... and two rounds of probes at least the configured interval. */
  lemma ProbesApart(plan: Plan, s: Schedule, ts: seq<Turn>, i: nat, j: nat)
    requires i < j < |ts|
    requires HealthDue(plan, Before(plan, s, ts, i), ts[i].now) && HealthDue(plan, Before(plan, s, ts, j), ts[j].now)
    ensures ts[j].now >= ts[i].now + plan.healthInterval
  {
    hide Refreshes, Lapses, NeedsLookup, Before;
    SchedulesAdvance(plan, s, ts, i + 1, j);
    BeforeNext(plan, s, ts, i);
  }

  /** A new endpoint: healthy and not on lease. */
  twostate predicate Newborn(new s: EndpointState)
    reads s
  {
    fresh(s) && s.View() == Cell(false, HEALTHY) && s.active == 0
  }

  /** The entry keeps the state its address had, or has a new one. */
  twostate predicate Supplied(previous: map<Address, EndpointState>, new e: Entry)
    reads e.state
  {
    if e.address in previous then e.state == previous[e.address] else Newborn(e.state)
  }

  /** The entry keeps the state of the last entry there was with its address, or is new. */
  twostate predicate Carried(before: seq<Entry>, new e: Entry)
    reads e.state
  {
    match LastState(before, e.address)
    case Some(state) => e.state == state
    case None => Newborn(e.state)
  }

  class Backend {
    const origins: seq<Origin>
    const checked: bool
    const healthInterval: nat
    const maxInflight: nat
    const revision: Revision
    var endpoints: seq<Entry>
    var selection: Option<Selection>
    var nextDns: int
    var dnsSuccess: int
    var nextHealth: int
    var active: nat

    // The endpoints on lease, once for every request they serve, and all endpoints there ever were.
    ghost var leases: multiset<EndpointState>
    ghost var known: set<EndpointState>

    /** Every flag tells the truth about its record, and every lease is counted twice: with the
        backend and with its endpoint, which may have left the pool. */
    ghost predicate Valid()
      reads this, known
    {
      && (forall s | s in known :: Sound(s.View()) && s.active == leases[s])
      && (forall e | e in endpoints :: e.state in known)
      && (forall s | s in leases :: s in known)
      && active == |leases| && (maxInflight > 0 ==> active <= maxInflight)
    }

    function Planned(): Plan
      reads this
    {
      Plan(origins, checked, healthInterval)
    }

    function Scheduled(): Schedule
      reads this
    {
      Schedule(nextDns, dnsSuccess, nextHealth)
    }

    constructor (
        origins: seq<Origin>, addresses: seq<(Address, nat)>, checked: bool, healthInterval: nat,
        maxInflight: nat, now: int)
      ensures Valid() && fresh(revision) && revision.value == 0 && selection.None? && leases == multiset{}
      ensures Planned() == Plan(origins, checked, healthInterval) && this.maxInflight == maxInflight
      ensures Scheduled() == Schedule(now, now, now)
      ensures |endpoints| == |addresses|
      ensures forall i | 0 <= i < |addresses| ::
                && (endpoints[i].address, endpoints[i].weight) == addresses[i]
                && Newborn(endpoints[i].state)
      ensures known == set e | e in endpoints :: e.state
    {
      this.origins, this.checked, this.healthInterval := origins, checked, healthInterval;
      this.maxInflight := maxInflight;
      var counter := new Revision();
      var entries: seq<Entry> := [];
      for i := 0 to |addresses|
        invariant |entries| == i && counter.value == 0
        invariant forall k | 0 <= k < i ::
                    && (entries[k].address, entries[k].weight) == addresses[k]
                    && Newborn(entries[k].state)
      {
        var state := new EndpointState();
        entries := entries + [Entry(addresses[i].0, addresses[i].1, state)];
      }
      revision, endpoints, selection := counter, entries, None;
      nextDns, dnsSuccess, nextHealth := now, now, now;
      active, leases, known := 0, multiset{}, set e | e in entries :: e.state;
    }

    /** `maintain` without the probes, whose verdicts arrive later through the state objects: the
        schedule moves on as planned, and so do the endpoints when lookups were made. */
    method Maintain(turn: Turn) returns (dns: bool, health: bool)
      requires Valid() && |turn.answers| == |origins|
      modifies this`endpoints, this`known, this`selection, this`nextDns, this`dnsSuccess, this`nextHealth
      ensures Valid()
      ensures Scheduled() == Maintained(Planned(), old(Scheduled()), turn)
      ensures dns == DnsDue(Planned(), old(Scheduled()), turn.now)
      ensures health == HealthDue(Planned(), old(Scheduled()), turn.now)
      ensures !dns || !turn.resolver ==> endpoints == old(endpoints) && selection == old(selection)
      ensures dns && Refreshes(Planned(), turn) ==>
                selection.None? && Addresses(endpoints) == InOrder(Gathered(origins, turn.answers, |origins|).Keys)
      // A failed lookup leaves no endpoint that was last confirmed more than a minute ago.
      ensures dns && turn.resolver && !Refreshes(Planned(), turn) && endpoints != [] ==>
                turn.now - dnsSuccess <= 60 * SECOND && endpoints == old(endpoints)
    {
      hide InOrder, AllResolved, Until, Gathered, NeedsLookup, LastState;
      dns, health := BeginMaintain(turn.now);
      if dns && turn.resolver {
        ApplyDns(turn.answers, turn.now);
      }
    }

    /** First part of `maintain`: decide what is due and book the next turn. */
    method BeginMaintain(now: int) returns (dns: bool, health: bool)
      modifies this`nextDns, this`nextHealth
      ensures dns == DnsDue(Planned(), old(Scheduled()), now)
      ensures health == HealthDue(Planned(), old(Scheduled()), now)
      ensures nextDns == if dns then now + 5 * SECOND else old(nextDns)
      ensures nextHealth == if health then now + healthInterval else old(nextHealth)
    {
      dns := NeedsLookup(origins) && now >= nextDns;
      health := checked && now >= nextHealth;
      if dns {
        nextDns := now + 5 * SECOND;
      }
      if health {
        nextHealth := now + healthInterval;
      }
    }

    /** Second part: apply the lookups, which ended when the first one failed. */
    method ApplyDns(answers: seq<Option<Answer>>, now: int)
      requires Valid() && |answers| == |origins|
      modifies this`endpoints, this`known, this`selection, this`nextDns, this`dnsSuccess
      ensures Valid()
      // A cached selection never outlives the endpoints it was made from.
      ensures endpoints != old(endpoints) ==> selection == None
      ensures if AllResolved(origins, answers) then
                && selection == None && dnsSuccess == now
                && nextDns == Later(Until(answers, origins, |origins|, now + 3600 * SECOND), now + SECOND)
              else
                && dnsSuccess == old(dnsSuccess) && nextDns == old(nextDns)
                && if now - dnsSuccess > 60 * SECOND then endpoints == [] && selection == None
                   else endpoints == old(endpoints) && selection == old(selection)
      // Exactly the gathered addresses, in order, with their weights; a retained address keeps
      // its state object and a new one starts healthy.
      ensures AllResolved(origins, answers) ==>
                var found := Gathered(origins, answers, |origins|);
                && Addresses(endpoints) == InOrder(found.Keys)
                && forall i | 0 <= i < |endpoints| ::
                     var e := endpoints[i];
                     && e.address in found && e.weight == found[e.address]
                     && Carried(old(endpoints), e)
    {
      hide Gathered, Until, InOrder, LastState, AllResolved, Sound, Addresses;
      var found, until, failed := Collect(answers, now);
      if !failed {
        ReplaceEndpoints(found);
        nextDns := Later(until, now + SECOND);
        dnsSuccess := now;
      } else if now - dnsSuccess > 60 * SECOND {
        endpoints := [];
        selection := None;
      }
    }

    /** The endpoints become the given addresses, and what was cached about the old ones is dropped. */
    method ReplaceEndpoints(found: map<Address, nat>)
      requires Valid()
      modifies this`endpoints, this`known, this`selection
      ensures Valid() && selection == None
      ensures Addresses(endpoints) == InOrder(found.Keys)
      ensures forall i | 0 <= i < |endpoints| ::
                var e := endpoints[i];
                && e.address in found && e.weight == found[e.address]
                && Carried(old(endpoints), e)
    {
      hide LastState, Sound, InOrder;
      var previous := Previous();
      var keys := InOrder(found.Keys);
      var entries := Build(found, keys, previous);
      assert Addresses(entries) == keys;
      Adopt(entries);
    }

    method Adopt(entries: seq<Entry>)
      requires Valid()
      requires forall i | 0 <= i < |entries| ::
                 var s := entries[i].state;
                 s in known || (s !in leases && s.View() == Cell(false, HEALTHY) && s.active == 0)
      modifies this`endpoints, this`known, this`selection
      ensures Valid() && endpoints == entries && selection == None
    {
      hide Sound;
      FreshIsSound();
      endpoints := entries;
      known := known + set e | e in entries :: e.state;
      selection := None;
    }

    lemma FreshIsSound()
      ensures Sound(Cell(false, HEALTHY))
    {
    }

    /** The lookups of one refresh, in origin order, gathered into an ordered map. */
    method Collect(answers: seq<Option<Answer>>, now: int)
      returns (found: map<Address, nat>, until: int, failed: bool)
      requires |answers| == |origins|
      ensures failed <==> !AllResolved(origins, answers)
      ensures !failed ==> found == Gathered(origins, answers, |origins|)
      ensures !failed ==> until == Until(answers, origins, |origins|, now + 3600 * SECOND)
    {
      found, until, failed := map[], now + 3600 * SECOND, false;
      for n := 0 to |origins|
        invariant forall i | 0 <= i < n :: Contribution(origins, answers, i).Some?
        invariant !failed && found == Gathered(origins, answers, n)
        invariant until == Until(answers, origins, n, now + 3600 * SECOND)
      {
        var added := Contribution(origins, answers, n);
        if added.None? {
          failed := true;
          return;
        }
        if origins[n].literal.None? && answers[n].value.validUntil < until {
          until := answers[n].value.validUntil;
        }
        found := found + map a | a in added.value :: origins[n].weight;
      }
    }

    /** The state of every present address; the last entry wins should one be listed twice. */
    method Previous() returns (previous: map<Address, EndpointState>)
      requires Valid()
      ensures forall a :: a in previous <==> LastState(endpoints, a).Some?
      ensures forall a | a in previous :: LastState(endpoints, a) == Some(previous[a])
      ensures forall a | a in previous :: previous[a] in known
    {
      previous := map[];
      for n := 0 to |endpoints|
        invariant forall a :: a in previous <==> LastState(endpoints[..n], a).Some?
        invariant forall a | a in previous :: LastState(endpoints[..n], a) == Some(previous[a])
        invariant forall a | a in previous :: previous[a] in known
      {
        assert endpoints[..n + 1][..n] == endpoints[..n];
        assert endpoints[n] in endpoints;
        previous := previous[endpoints[n].address := endpoints[n].state];
      }
      assert endpoints[..|endpoints|] == endpoints;
    }

    method Build(found: map<Address, nat>, keys: seq<Address>, previous: map<Address, EndpointState>)
      returns (entries: seq<Entry>)
      requires forall a | a in keys :: a in found
      ensures |entries| == |keys|
      ensures forall k | 0 <= k < |keys| ::
                && entries[k].address == keys[k] && entries[k].weight == found[keys[k]]
                && Supplied(previous, entries[k])
    {
      entries := [];
      for n := 0 to |keys|
        invariant |entries| == n
        invariant forall k | 0 <= k < n ::
                    && entries[k].address == keys[k] && entries[k].weight == found[keys[k]]
                    && Supplied(previous, entries[k])
      {
        var a := keys[n];
        if a in previous {
          entries := entries + [Entry(a, found[a], previous[a])];
        } else {
          var state := new EndpointState();
          entries := entries + [Entry(a, found[a], state)];
        }
      }
    }

    /** The entries of the first n that may be chosen. */
    ghost function Eligible(n: nat, now: int): (r: seq<Entry>)
      requires n <= |endpoints|
      reads this, set e | e in endpoints :: e.state
    {
      if n == 0 then []
      else
        var e := endpoints[n - 1];
        Eligible(n - 1, now)
        + (if SelectionCache.Eligible(checked, SelectionCache.Slot(e.weight, 0), e.state.View().health, now)
           then [e] else [])
    }

    /** They are exactly the entries a readiness test would accept. */
    lemma {:induction false} EligibleExactly(n: nat, now: int)
      requires n <= |endpoints|
      ensures forall i | 0 <= i < |Eligible(n, now)| :: Eligible(n, now)[i] in endpoints[..n]
      ensures forall k | 0 <= k < n ::
                endpoints[k] in Eligible(n, now) <==>
                  ResultInterleavings.Whole(
                    endpoints[k].state.View().health,
                    ResultInterleavings.Ready(now, checked, endpoints[k].weight)).1
    {
      if n > 0 {
        EligibleExactly(n - 1, now);
        assert endpoints[..n] == endpoints[..n - 1] + [endpoints[n - 1]];
      }
    }

    /** The cached selection may be used as it is. */
    predicate Reusable(now: int)
      reads this, revision
    {
      && selection.Some? && selection.value.revision == revision.value
      && SelectionCache.Usable(selection.value.expires, now)
    }

    /** The readiness test of one entry. */
    method Ready(entry: Entry, now: int, expires: Option<int>) returns (ok: bool, expires': Option<int>)
      modifies entry.state`flag, entry.state`failures, entry.state`blockedUntil
      ensures (ok, entry.state.View(), expires')
           == SelectionCache.Test(checked, SelectionCache.Slot(entry.weight, 0), old(entry.state.View()), now, expires)
    {
      var state := entry.state;
      expires' := expires;
      if entry.weight == 0 {
        return false, expires;
      }
      if !checked && !state.flag {
        return true, expires;
      }
      if state.blockedUntil.Some? {
        if state.blockedUntil.value <= now {
          state.blockedUntil := None;
          state.failures := 0;
          state.flag := false;
        } else {
          expires' := Some(if expires.Some? && expires.value <= state.blockedUntil.value
                           then expires.value else state.blockedUntil.value);
        }
      }
      ok := state.blockedUntil.None? && (!checked || state.activeOk == Some(true));
    }

    lemma KeptAtFirst(now: int)
      ensures forall h: Health :: SelectionCache.Kept(h, h, now)
    {
    }

    /** The caching half of `select`: a selection of the current revision that has not lapsed is used
        as it is; otherwise a scan makes a new one, of exactly the entries that may be chosen. */
    method Current(now: int) returns (eligible: seq<Entry>)
      requires Valid()
      modifies this`selection, set e | e in endpoints :: e.state
      ensures Valid() && selection.Some? && eligible == selection.value.eligible
      ensures selection.value.revision == revision.value
      ensures old(Reusable(now)) ==>
                selection == old(selection) && forall e | e in endpoints :: unchanged(e.state)
      ensures !old(Reusable(now)) ==>
                && eligible == old(Eligible(|endpoints|, now))
                && (forall e | e in endpoints ::
                      SelectionCache.Kept(old(e.state.View().health), e.state.View().health, now))
                && Outlasted(|endpoints|, now, selection.value.expires)
    {
      hide SelectionCache.Kept, SelectionCache.Eligible, Sound;
      if selection.Some? && selection.value.revision == revision.value
         && (selection.value.expires.None? || now < selection.value.expires.value) {
        return selection.value.eligible;
      }
      var at := revision.value;
      var expires: Option<int>;
      eligible, expires := ScanAll(now);
      selection := Some(Selection(eligible, at, expires));
    }

    /** `expires` comes before the end of any cooldown still running among the first n entries. */
    ghost predicate Outlasted(n: nat, now: int, expires: Option<int>)
      requires n <= |endpoints|
      reads this, set e | e in endpoints :: e.state
    {
      forall k | 0 <= k < n && endpoints[k].weight > 0 ::
        var until := endpoints[k].state.blockedUntil;
        until.Some? && until.value > now ==> expires.Some? && expires.value <= until.value
    }

    /** Testing the n-th entry, with `was` its record before the scan. */
    method ScanOne(n: nat, now: int, expires: Option<int>, ghost was: Health) returns (ok: bool, expires': Option<int>)
      requires Valid() && n < |endpoints| && Outlasted(n, now, expires)
      requires SelectionCache.Kept(was, endpoints[n].state.View().health, now)
      modifies endpoints[n].state
      ensures Valid() && Outlasted(n + 1, now, expires')
      ensures ok <==> SelectionCache.Eligible(checked, SelectionCache.Slot(endpoints[n].weight, 0), was, now)
      ensures SelectionCache.Kept(was, endpoints[n].state.View().health, now)
    {
      hide SelectionCache.Test, SelectionCache.Kept, SelectionCache.Eligible, Sound;
      var entry := endpoints[n];
      assert entry in endpoints;
      ReadinessKept(checked, entry.weight, was, entry.state.View(), now, expires);
      ok, expires' := Ready(entry, now, expires);
    }

    /** Testing every entry in order. */
    method ScanAll(now: int) returns (eligible: seq<Entry>, expires: Option<int>)
      requires Valid()
      modifies set e | e in endpoints :: e.state
      ensures Valid()
      ensures eligible == old(Eligible(|endpoints|, now)) && Outlasted(|endpoints|, now, expires)
      ensures forall e | e in endpoints ::
                SelectionCache.Kept(old(e.state.View().health), e.state.View().health, now)
    {
      hide SelectionCache.Kept, SelectionCache.Eligible, Sound;
      KeptAtFirst(now);
      eligible, expires := [], None;
      for n := 0 to |endpoints|
        invariant Valid() && Outlasted(n, now, expires)
        invariant eligible == old(Eligible(n, now))
        invariant forall e | e in endpoints ::
                    SelectionCache.Kept(old(e.state.View().health), e.state.View().health, now)
      {
        var ok: bool;
        assert endpoints[n] in endpoints;
        ok, expires := ScanOne(n, now, expires, old(endpoints[n].state.View().health));
        if ok {
          eligible := eligible + [endpoints[n]];
        }
      }
    }

    /** Taking a lease on an endpoint, which may have left the pool since it was chosen: refused exactly
        when a limit is set and reached. */
    method Reserve(state: EndpointState) returns (granted: bool)
      requires Valid() && state in known
      modifies this`active, this`leases, state`active
      ensures Valid()
      ensures granted <==> maxInflight == 0 || |old(leases)| < maxInflight
      ensures leases == if granted then old(leases) + multiset{state} else old(leases)
    {
      granted := maxInflight == 0 || active < maxInflight;
      if granted {
        active := active + 1;
        state.active := state.active + 1;
        leases := leases + multiset{state};
      }
    }

    /** Dropping a lease; neither count goes below zero. */
    method Release(state: EndpointState)
      requires Valid() && state in leases
      modifies this`active, this`leases, state`active
      ensures Valid() && leases == old(leases) - multiset{state}
    {
      state.active := state.active - 1;
      active := active - 1;
      leases := leases - multiset{state};
    }

    /** A result for an address outside the pool is dropped; otherwise the first entry with that
        address records it and no other endpoint changes. */
    method RecordResult(address: Address, failed: bool, maxFails: nat, until: int) returns (ejected: bool)
      requires Valid()
      modifies revision, set e | e in endpoints :: e.state
      ensures Valid()
      ensures address !in Addresses(endpoints) ==>
                !ejected && unchanged(revision) && forall e | e in endpoints :: unchanged(e.state)
      ensures address in Addresses(endpoints) ==>
                exists i | 0 <= i < |endpoints| ::
                  && endpoints[i].address == address && address !in Addresses(endpoints)[..i]
                  && (forall e | e in endpoints && e.state != endpoints[i].state :: unchanged(e.state))
                  && var r := Locked(old(endpoints[i].state.View().health), failed, maxFails, until);
                     && endpoints[i].state.View().health == r.health && ejected == r.ejected
                     && revision.value == old(revision.value) + (if r.bumped then 1 else 0)
    {
      var n := 0;
      while n < |endpoints| && endpoints[n].address != address
        invariant n <= |endpoints| && address !in Addresses(endpoints)[..n]
      {
        n := n + 1;
      }
      if n == |endpoints| {
        assert Addresses(endpoints)[..n] == Addresses(endpoints);
        return false;
      }
      assert address == Addresses(endpoints)[n];
      ejected := endpoints[n].state.RecordResult(failed, maxFails, until, revision);
    }

    /** The weight and health of every entry, in order. */
    ghost function Records(n: nat): (r: seq<(nat, Health)>)
      requires n <= |endpoints|
      reads this, set e | e in endpoints :: e.state
    {
      if n == 0 then []
      else Records(n - 1) + [(endpoints[n - 1].weight, endpoints[n - 1].state.View().health)]
    }

    lemma {:induction false} RecordsExactly(n: nat)
      requires n <= |endpoints|
      ensures |Records(n)| == n
      ensures forall i | 0 <= i < n :: Records(n)[i] == (endpoints[i].weight, endpoints[i].state.View().health)
    {
      if n > 0 {
        RecordsExactly(n - 1);
      }
    }

    /** The summary counts exactly the entries a fresh scan at `now` would accept, and the reasons for the rest. */
    method Observe(now: int) returns (summary: Summary)
      ensures summary.endpoints == |endpoints|
      ensures summary.eligible == Count(Choosable(checked, now), Records(|endpoints|))
      ensures summary.ejected == Count(Ejected(now), Records(|endpoints|))
      ensures summary.unready == Count(Unready(checked), Records(|endpoints|))
      ensures summary.active == active
      ensures summary.dnsAge == if NeedsLookup(origins) then Some(now - dnsSuccess) else None
    {
      var dnsAge := if NeedsLookup(origins) then Some(now - dnsSuccess) else None;
      summary := Summary(|endpoints|, 0, 0, 0, active, dnsAge);
      for n := 0 to |endpoints|
        invariant summary.endpoints == |endpoints| && summary.active == active && summary.dnsAge == dnsAge
        invariant summary.eligible == Count(Choosable(checked, now), Records(n))
        invariant summary.ejected == Count(Ejected(now), Records(n))
        invariant summary.unready == Count(Unready(checked), Records(n))
      {
        var entry := endpoints[n];
        var ejected := entry.state.blockedUntil.Some? && entry.state.blockedUntil.value > now;
        var unready := checked && entry.state.activeOk != Some(true);
        ghost var record := [(entry.weight, entry.state.View().health)];
        CountConcat(Choosable(checked, now), Records(n), record);
        CountConcat(Ejected(now), Records(n), record);
        CountConcat(Unready(checked), Records(n), record);
        summary := Summary(
          |endpoints|,
          summary.eligible + (if !ejected && !unready && entry.weight > 0 then 1 else 0),
          summary.ejected + (if ejected then 1 else 0),
          summary.unready + (if unready then 1 else 0),
          active,
          dnsAge);
      }
    }
  }
}
