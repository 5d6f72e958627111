/** Any number of calls recording results for one endpoint, interleaved step by step. The flag is
    read without the lock; inside the lock the record is written, then the flag is stored, then
    the lock is released. Every such run behaves like some order of fully locked calls. */
module ResultInterleavings {
  import opened Options
  import opened EndpointHealth

  /** A result to record, a readiness test that may clear an expired cooldown, or an active verdict. */
  datatype Op =
    | Result(failed: bool, maxFails: nat, until: int)
    | Ready(now: int, activeChecks: bool, weight: nat)
    | Verdict(ok: bool)

  /** The call executed in one piece under the lock, and what it returns. */
  function Whole(h: Health, op: Op): (Health, bool) {
    match op
    case Result(failed, maxFails, until) =>
      var r := Locked(h, failed, maxFails, until);
      (r.health, r.ejected)
    case Ready(now, activeChecks, weight) =>
      if weight == 0 then (h, false) else (Expire(h, now), Choosable(Expire(h, now), activeChecks))
    case Verdict(ok) => (h.(activeOk := Some(ok)), false)
  }

  predicate Choosable(h: Health, activeChecks: bool) {
    h.blockedUntil.None? && (activeChecks ==> h.activeOk == Some(true))
  }

  /** Where a call stands. `lowers` says whether it is about to lower the flag. */
  datatype Phase = Start | Waiting | Holding | Written(lowers: bool) | Stored(answer: bool) | Done(answer: bool)

  datatype Call = Call(op: Op, phase: Phase)

  /** A call that has taken effect, with its answer. */
  datatype Entry = Entry(id: nat, op: Op, answer: bool)

  /** `order` is the sequential order being claimed and `logical` the health it reaches. */
  datatype Shared = Shared(
    flag: bool,
    health: Health,
    holder: Option<nat>,
    calls: map<nat, Call>,
    order: seq<Entry>,
    logical: Health)

  const QUIET := Shared(false, HEALTHY, None, map[], [], HEALTHY)

  datatype Action = Invoke(id: nat, op: Op) | Advance(id: nat)

  /** The first write inside the lock. */
  function FirstWrite(h: Health, op: Op): Health {
    match op
    case Result(failed, _, _) =>
      if failed then h.(failures := SaturatingIncrement(h.failures))
      else h.(failures := 0, blockedUntil := None)
    case Ready(now, _, _) => Expire(h, now)
    case Verdict(ok) => h.(activeOk := Some(ok))
  }

  /** Whether that write is followed by lowering the flag. */
  predicate Lowers(h: Health, op: Op) {
    match op
    case Result(failed, _, _) => !failed
    case Ready(now, _, _) => Expire(h, now) != h
    case Verdict(_) => false
  }

  predicate Raises(op: Op) {
    op.Result? && op.failed
  }

  predicate Enabled(s: Shared, a: Action) {
    match a
    case Invoke(id, _) => id !in s.calls
    case Advance(id) =>
      id in s.calls && !s.calls[id].phase.Done? && (s.calls[id].phase.Waiting? ==> s.holder.None?)
  }

  function Move(s: Shared, id: nat, phase: Phase): Shared
    requires id in s.calls
  {
    s.(calls := s.calls[id := s.calls[id].(phase := phase)])
  }

  /** The call takes effect now. */
  function Commit(s: Shared, id: nat): Shared
    requires id in s.calls
  {
    var op := s.calls[id].op;
    s.(order := s.order + [Entry(id, op, Whole(s.logical, op).1)], logical := Whole(s.logical, op).0)
  }

  function Step(s: Shared, a: Action): Shared
    requires Enabled(s, a)
  {
    match a
    case Invoke(id, op) => s.(calls := s.calls[id := Call(op, Start)])
    case Advance(id) =>
      var op := s.calls[id].op;
      match s.calls[id].phase
      case Start =>
        // The only unlocked read, and the early return.
        if op.Result? && op.failed && op.maxFails == 0 then Move(Commit(s, id), id, Done(false))
        else if op.Result? && !op.failed && !s.flag then Move(Commit(s, id), id, Done(false))
        else if op.Ready? && op.weight == 0 then Move(Commit(s, id), id, Done(false))
        else if op.Ready? && !op.activeChecks && !s.flag then Move(Commit(s, id), id, Done(true))
        else Move(s, id, Waiting)
      case Waiting => Move(s, id, Holding).(holder := Some(id))
      case Holding =>
        var lowers := Lowers(s.health, op);
        Move(s, id, Written(lowers)).(health := FirstWrite(s.health, op))
      case Written(lowers) =>
        if Raises(op) then Move(s, id, Stored(false)).(flag := true)
        else
          var next := Commit(s, id).(flag := if lowers then false else s.flag);
          Move(next, id, Stored(op.Ready? && Choosable(s.health, op.activeChecks)))
      case Stored(answer) =>
        if Raises(op) then
          var ejects := s.health.failures >= op.maxFails && s.health.blockedUntil.None?;
          var health := if ejects then s.health.(blockedUntil := Some(op.until)) else s.health;
          Move(Commit(s, id), id, Done(ejects)).(health := health, holder := None)
        else Move(s, id, Done(answer)).(holder := None)
      case Done(_) => s
  }

  /** A run from a fresh endpoint, each action allowed where it happens. */
  ghost predicate Possible(actions: seq<Action>)
    decreases |actions|, 0
  {
    actions == [] ||
    (Possible(actions[..|actions| - 1]) && Enabled(Run(actions[..|actions| - 1]), actions[|actions| - 1]))
  }

  ghost function Run(actions: seq<Action>): Shared
    requires Possible(actions)
    decreases |actions|, 1
  {
    if actions == [] then QUIET
    else Step(Run(actions[..|actions| - 1]), actions[|actions| - 1])
  }

  /** The health a sequential order of whole calls reaches. */
  function Replay(order: seq<Entry>): Health {
    if order == [] then HEALTHY else Whole(Replay(order[..|order| - 1]), order[|order| - 1].op).0
  }

  /** Every answer in the order is the one the whole call gives at that point. */
  ghost predicate Legal(order: seq<Entry>) {
    forall k | 0 <= k < |order| :: order[k].answer == Whole(Replay(order[..k]), order[k].op).1
  }

  predicate Inside(p: Phase) {
    p.Holding? || p.Written? || p.Stored?
  }

  /** Whether a call in this phase has taken effect. */
  predicate Effective(c: Call) {
    c.phase.Done? || (c.phase.Stored? && !Raises(c.op))
  }

  /** How memory relates to the logical health while the given call holds the lock. */
  predicate HolderAgrees(s: Shared, c: Call) {
    match c.phase
    case Holding => s.health == s.logical
    case Written(lowers) =>
      && s.health == FirstWrite(s.logical, c.op)
      && lowers == Lowers(s.logical, c.op)
    case Stored(_) => if Raises(c.op) then s.flag && s.health == FirstWrite(s.logical, c.op) else s.health == s.logical
    case _ => false
  }

  predicate LocksAgree(s: Shared) {
    && (s.holder.Some? ==> s.holder.value in s.calls && HolderAgrees(s, s.calls[s.holder.value]))
    && (s.holder.None? ==> s.health == s.logical)
    && (forall id | id in s.calls && Inside(s.calls[id].phase) :: s.holder == Some(id))
    && (forall id | id in s.calls && s.calls[id].op.Result? && s.calls[id].op.failed && s.calls[id].op.maxFails == 0 ::
          s.calls[id].phase.Start? || s.calls[id].phase.Done?)
    && (forall id | id in s.calls && s.calls[id].op.Ready? && s.calls[id].op.weight == 0 ::
          s.calls[id].phase.Start? || s.calls[id].phase.Done?)
    && Sound(Cell(s.flag, s.logical))
  }

  ghost predicate DistinctIds(order: seq<Entry>) {
    forall i, j | 0 <= i < j < |order| :: order[i].id != order[j].id
  }

  /** The order lists calls in effect, with the answers they return. */
  ghost predicate ListsEffective(calls: map<nat, Call>, order: seq<Entry>) {
    forall k | 0 <= k < |order| ::
      var id := order[k].id;
      && id in calls && Effective(calls[id])
      && order[k] == Entry(id, calls[id].op, calls[id].phase.answer)
  }

  /** The order misses no call in effect. */
  ghost predicate ListsAll(calls: map<nat, Call>, order: seq<Entry>) {
    forall id | id in calls && Effective(calls[id]) ::
      Entry(id, calls[id].op, calls[id].phase.answer) in order
  }

  ghost predicate OrderAgrees(s: Shared) {
    && s.logical == Replay(s.order)
    && Legal(s.order)
    && DistinctIds(s.order)
    && ListsEffective(s.calls, s.order)
    && ListsAll(s.calls, s.order)
  }

  /** A call that returns early would have changed nothing under the lock either. */
  lemma EarlyReturnIsIdle(h: Health, flag: bool, op: Op)
    requires Sound(Cell(flag, h))
    ensures op.Result? && op.failed && op.maxFails == 0 ==> Whole(h, op) == (h, false)
    ensures op.Result? && !op.failed && !flag ==> Whole(h, op) == (h, false)
    ensures op.Ready? && op.weight == 0 ==> Whole(h, op) == (h, false)
    ensures op.Ready? && op.weight > 0 && !op.activeChecks && !flag ==> Whole(h, op) == (h, true)
  {
  }

  lemma LockStepStart(s: Shared, id: nat)
    requires LocksAgree(s) && Enabled(s, Advance(id)) && s.calls[id].phase.Start?
    ensures LocksAgree(Step(s, Advance(id)))
  {
    EarlyReturnIsIdle(s.logical, s.flag, s.calls[id].op);
    hide Whole, FirstWrite;
  }

  lemma LockStepWaiting(s: Shared, id: nat)
    requires LocksAgree(s) && Enabled(s, Advance(id)) && s.calls[id].phase.Waiting?
    ensures LocksAgree(Step(s, Advance(id)))
  {
  }

  lemma LockStepHolding(s: Shared, id: nat)
    requires LocksAgree(s) && Enabled(s, Advance(id)) && s.calls[id].phase.Holding?
    ensures LocksAgree(Step(s, Advance(id)))
  {
  }

  lemma LockStepWritten(s: Shared, id: nat)
    requires LocksAgree(s) && Enabled(s, Advance(id)) && s.calls[id].phase.Written?
    ensures LocksAgree(Step(s, Advance(id)))
  {
  }

  lemma LockStepStored(s: Shared, id: nat)
    requires LocksAgree(s) && Enabled(s, Advance(id)) && s.calls[id].phase.Stored?
    ensures LocksAgree(Step(s, Advance(id)))
  {
  }

  lemma LockStep(s: Shared, a: Action)
    requires LocksAgree(s) && Enabled(s, a)
    ensures LocksAgree(Step(s, a))
  {
    if a.Advance? {
      hide LocksAgree, Step;
      match s.calls[a.id].phase
      case Start => LockStepStart(s, a.id);
      case Waiting => LockStepWaiting(s, a.id);
      case Holding => LockStepHolding(s, a.id);
      case Written(_) => LockStepWritten(s, a.id);
      case Stored(_) => LockStepStored(s, a.id);
    }
  }

  lemma ReplaySnoc(order: seq<Entry>, e: Entry)
    requires Legal(order)
    requires e.answer == Whole(Replay(order), e.op).1
    ensures Replay(order + [e]) == Whole(Replay(order), e.op).0 && Legal(order + [e])
  {
    var all := order + [e];
    assert all[..|all| - 1] == order;
    forall k | 0 <= k < |all| ensures all[k].answer == Whole(Replay(all[..k]), all[k].op).1 {
      if k < |order| {
        assert all[..k] == order[..k];
      }
    }
  }

  /** Advancing a call moves only that call. */
  lemma AdvanceMovesOne(s: Shared, id: nat)
    requires Enabled(s, Advance(id))
    ensures var t := Step(s, Advance(id));
            id in t.calls && t.calls == s.calls[id := Call(s.calls[id].op, t.calls[id].phase)]
  {
  }

  /** Either the call takes effect now, with the answer it will return, or the order stays. */
  lemma AdvanceCommits(s: Shared, id: nat)
    requires LocksAgree(s) && Enabled(s, Advance(id)) && id in Step(s, Advance(id)).calls
    ensures var t, c, d := Step(s, Advance(id)), s.calls[id], Step(s, Advance(id)).calls[id];
            if Effective(c) then
              Effective(d) && d.phase.answer == c.phase.answer && t.order == s.order && t.logical == s.logical
            else if Effective(d) then
              && d.phase.answer == Whole(s.logical, c.op).1
              && t.order == s.order + [Entry(id, c.op, d.phase.answer)]
              && t.logical == Whole(s.logical, c.op).0
            else t.order == s.order && t.logical == s.logical
  {
    EarlyReturnIsIdle(s.logical, s.flag, s.calls[id].op);
  }

  lemma ListingExtended(calls: map<nat, Call>, order: seq<Entry>, id: nat, phase: Phase)
    requires DistinctIds(order) && ListsEffective(calls, order) && ListsAll(calls, order)
    requires id in calls && !Effective(calls[id]) && Effective(Call(calls[id].op, phase))
    ensures var calls', order' := calls[id := Call(calls[id].op, phase)],
                                  order + [Entry(id, calls[id].op, phase.answer)];
            DistinctIds(order') && ListsEffective(calls', order') && ListsAll(calls', order')
  {
    var e := Entry(id, calls[id].op, phase.answer);
    assert e in order + [e];
    forall x | x in order ensures x in order + [e] {
    }
  }

  lemma ListingKept(calls: map<nat, Call>, order: seq<Entry>, id: nat, call: Call)
    requires ListsEffective(calls, order) && ListsAll(calls, order)
    requires if id !in calls then !Effective(call)
             else
               && call.op == calls[id].op
               && (Effective(call) <==> Effective(calls[id]))
               && (Effective(call) ==> call.phase.answer == calls[id].phase.answer)
    ensures ListsEffective(calls[id := call], order) && ListsAll(calls[id := call], order)
  {
  }

  /** The order only ever grows, and stays a legal order of exactly the calls in effect. */
  lemma OrderStep(s: Shared, a: Action)
    requires LocksAgree(s) && OrderAgrees(s) && Enabled(s, a)
    ensures OrderAgrees(Step(s, a)) && s.order <= Step(s, a).order
  {
    var t := Step(s, a);
    if a.Invoke? {
      ListingKept(s.calls, s.order, a.id, Call(a.op, Start));
    } else {
      AdvanceMovesOne(s, a.id);
      AdvanceCommits(s, a.id);
      hide LocksAgree, Step, Whole, Replay, Legal, DistinctIds, ListsEffective, ListsAll;
      var phase := t.calls[a.id].phase;
      if !Effective(s.calls[a.id]) && Effective(t.calls[a.id]) {
        ReplaySnoc(s.order, Entry(a.id, s.calls[a.id].op, phase.answer));
        ListingExtended(s.calls, s.order, a.id, phase);
      } else {
        ListingKept(s.calls, s.order, a.id, Call(s.calls[a.id].op, phase));
      }
    }
  }

  lemma {:induction false} RunAgrees(actions: seq<Action>)
    requires Possible(actions)
    ensures LocksAgree(Run(actions)) && OrderAgrees(Run(actions))
    decreases |actions|
  {
    if actions != [] {
      var before := actions[..|actions| - 1];
      RunAgrees(before);
      LockStep(Run(before), actions[|actions| - 1]);
      OrderStep(Run(before), actions[|actions| - 1]);
    }
  }

  /** Every run has a sequential order of whole calls that gives each finished call its answer,
      contains no call twice and none that was not made, and, whenever the lock is free, ends in
      the health that is in memory. */
  lemma Linearizable(actions: seq<Action>)
    requires Possible(actions)
    ensures var s := Run(actions);
            && Legal(s.order)
            && DistinctIds(s.order)
            && (forall k | 0 <= k < |s.order| ::
                  s.order[k].id in s.calls && s.order[k].op == s.calls[s.order[k].id].op)
            && (forall id | id in s.calls && s.calls[id].phase.Done? ::
                  Entry(id, s.calls[id].op, s.calls[id].phase.answer) in s.order)
            && (s.holder.None? ==> s.health == Replay(s.order))
  {
    RunAgrees(actions);
    hide Legal, DistinctIds, Replay;
  }

  lemma {:induction false} OrderGrows(actions: seq<Action>, n: nat)
    requires Possible(actions) && n <= |actions|
    ensures Possible(actions[..n]) && Run(actions[..n]).order <= Run(actions).order
    decreases |actions|
  {
    if n == |actions| {
      assert actions[..n] == actions;
    } else {
      var before := actions[..|actions| - 1];
      assert before[..n] == actions[..n];
      OrderGrows(before, n);
      RunAgrees(before);
      OrderStep(Run(before), actions[|actions| - 1]);
    }
  }

  /** The order respects real time: a call that had finished before another began comes first. */
  lemma RealTimeOrder(actions: seq<Action>, n: nat, first: nat, second: nat, i: nat, j: nat)
    requires Possible(actions) && n <= |actions| && Possible(actions[..n])
    requires var s := Run(actions[..n]);
             first in s.calls && s.calls[first].phase.Done? && second !in s.calls
    requires i < |Run(actions).order| && Run(actions).order[i].id == first
    requires j < |Run(actions).order| && Run(actions).order[j].id == second
    ensures i < j
  {
    OrderGrows(actions, n);
    Linearizable(actions[..n]);
    Linearizable(actions);
    var s, t := Run(actions[..n]), Run(actions);
    hide Legal, Replay, Run, Possible;
    assert Entry(first, s.calls[first].op, s.calls[first].phase.answer) in s.order;
    var k :| 0 <= k < |s.order| && s.order[k].id == first;
    assert t.order[k].id == first;
    assert k == i;
    assert forall m | 0 <= m < |s.order| :: t.order[m] == s.order[m] && s.order[m].id in s.calls;
  }

  /** Answers of true given by recorded failures. */
  function Ejections(order: seq<Entry>): nat {
    if order == [] then 0
    else
      var last := order[|order| - 1];
      Ejections(order[..|order| - 1]) + (if Raises(last.op) && last.answer then 1 else 0)
  }

  /** Calls at which a cooldown in force disappears. */
  function Clears(order: seq<Entry>): nat {
    if order == [] then 0
    else
      var before := order[..|order| - 1];
      Clears(before) + (if Replay(before).blockedUntil.Some? && Replay(order).blockedUntil.None? then 1 else 0)
  }

  /** Ejections reported so far minus cooldowns cleared is 1 while ejected and 0 otherwise. */
  lemma {:induction false} EjectionBalance(order: seq<Entry>)
    requires Legal(order)
    ensures Ejections(order) == Clears(order) + (if Replay(order).blockedUntil.Some? then 1 else 0)
    decreases |order|
  {
    if order != [] {
      var before := order[..|order| - 1];
      forall k | 0 <= k < |before| ensures before[k].answer == Whole(Replay(before[..k]), before[k].op).1 {
        assert before[..k] == order[..k];
      }
      EjectionBalance(before);
    }
  }
}
