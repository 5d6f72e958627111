/** A backend's cached selection. Recordings and verdicts, each in the steps it takes under the health
    lock, time passing and refreshes interleave with scans of the endpoints; the revision, read before
    the scan, tells whether a cached selection may be used. */
module SelectionCache {
  import opened Options
  import opened EndpointHealth

  /** A pool entry: its weight and the identity of its state object. */
  datatype Slot = Slot(weight: nat, state: nat)

  datatype Cached = Cached(eligible: seq<Slot>, revision: nat, expires: Option<int>)

  /** A scan under way: `next` entries have been tested. */
  datatype Scan = Scan(next: nat, partial: Cached)

  /** What is recorded under the health lock: a result that gets past the unlocked test, or an active verdict. */
  datatype Op = Fail(maxFails: nat, until: int) | Succeed | Verdict(ok: bool)

  /** How far the holder of a health lock has come. Unbumped: readiness has been written, the
      revision not yet moved. */
  datatype Phase = Raising | Raised | Unbumped | Bumped

  datatype Pending = Pending(op: Op, phase: Phase, before: Health)

  /** An endpoint's memory and who holds its health lock. */
  datatype Guarded = Guarded(cell: Cell, holder: Option<Pending>)

  /** `checked` says whether active health checks are configured. */
  datatype Pool = Pool(
    checked: bool,
    endpoints: seq<Slot>,
    states: map<nat, Guarded>,
    revision: nat,
    cached: Option<Cached>,
    scan: Option<Scan>,
    clock: int)

  datatype Action =
    | Lock(state: nat, op: Op)
    | Continue(state: nat)
    | Replace(endpoints: seq<Slot>, states: map<nat, Guarded>)
    | Tick(now: int)
    | BeginScan
    | ScanNext
    | EndScan

  /** The first write of a lock holder. */
  function FirstWrite(h: Health, op: Op): Health {
    match op
    case Fail(_, _) => h.(failures := SaturatingIncrement(h.failures))
    case Succeed => h.(failures := 0, blockedUntil := None)
    case Verdict(ok) => h.(activeOk := Some(ok))
  }

  /** Where the first write leads: to the bump when it changed readiness. */
  function FirstPhase(h: Health, op: Op): Phase {
    match op
    case Fail(_, _) => Raising
    case Succeed => if h.blockedUntil.Some? then Unbumped else Bumped
    case Verdict(ok) => if h.activeOk != Some(ok) then Unbumped else Bumped
  }

  /** What the holder makes of the record in the end. */
  function Outcome(h: Health, op: Op): Health {
    match op
    case Fail(maxFails, until) => Locked(h, true, maxFails, until).health
    case Succeed => Locked(h, false, 1, 0).health
    case Verdict(ok) => h.(activeOk := Some(ok))
  }

  /** May the entry be chosen at `now`? An expired cooldown no longer counts. */
  predicate Eligible(checked: bool, slot: Slot, h: Health, now: int) {
    && slot.weight > 0
    && (h.blockedUntil.Some? ==> h.blockedUntil.value <= now)
    && (checked ==> h.activeOk == Some(true))
  }

  function Earlier(a: Option<int>, b: int): Option<int> {
    if a.Some? && a.value <= b then a else Some(b)
  }

  predicate Usable(expires: Option<int>, now: int) {
    expires.Some? ==> now < expires.value
  }

  /** The readiness test of one entry: its verdict, the entry's memory afterwards, and the instant
      at which the verdict may change by itself. */
  function Test(checked: bool, slot: Slot, cell: Cell, now: int, expires: Option<int>)
    : (bool, Cell, Option<int>)
  {
    if slot.weight == 0 then (false, cell, expires)
    else if !checked && !cell.flag then (true, cell, expires)
    else
      var h := Expire(cell.health, now);
      var after := Cell(if h != cell.health then false else cell.flag, h);
      (h.blockedUntil.None? && (!checked || h.activeOk == Some(true)),
       after,
       if h.blockedUntil.Some? then Earlier(expires, h.blockedUntil.value) else expires)
  }

  ghost function Recompute(checked: bool, endpoints: seq<Slot>, health: map<nat, Health>, now: int): seq<Slot>
    requires forall i | 0 <= i < |endpoints| :: endpoints[i].state in health
  {
    if endpoints == [] then []
    else
      var last := endpoints[|endpoints| - 1];
      var front := Recompute(checked, endpoints[..|endpoints| - 1], health, now);
      if Eligible(checked, last, health[last.state], now) then front + [last] else front
  }

  /** The health records as they stand in memory. */
  function InMemory(p: Pool): (health: map<nat, Health>)
    ensures health.Keys == p.states.Keys
  {
    map k | k in p.states :: p.states[k].cell.health
  }

  /** A record with a change taking effect at its bump. */
  function SettledRecord(g: Guarded): Health {
    if g.holder.Some? && g.holder.value.phase != Bumped then g.holder.value.before else g.cell.health
  }

  function Settled(p: Pool): (health: map<nat, Health>)
    ensures health.Keys == p.states.Keys
  {
    map k | k in p.states :: SettledRecord(p.states[k])
  }

  /** Whether a selection request finds nothing it may reuse. */
  predicate Stale(p: Pool) {
    || p.cached.None?
    || p.cached.value.revision != p.revision
    || !Usable(p.cached.value.expires, p.clock)
  }

  /** The readiness test of an entry takes no lock. */
  predicate Unlocked(checked: bool, slot: Slot, cell: Cell) {
    slot.weight == 0 || (!checked && !cell.flag)
  }

  predicate Enabled(p: Pool, a: Action) {
    match a
    case Lock(k, op) => k in p.states && p.states[k].holder.None? && (op.Fail? ==> op.maxFails > 0)
    case Continue(k) => k in p.states && p.states[k].holder.Some?
    case Replace(endpoints, states) =>
      // The pool lock is held during a scan; a refresh keeps the state objects others hold.
      && p.scan.None?
      && (forall k | k in p.states :: k in states && states[k] == p.states[k])
      && (forall k | k in states :: k in p.states || states[k] == Guarded(Cell(false, HEALTHY), None))
      && (forall i | 0 <= i < |endpoints| :: endpoints[i].state in states)
    case Tick(now) => p.clock <= now
    case BeginScan => p.scan.None? && Stale(p)
    case ScanNext =>
      && p.scan.Some? && p.scan.value.next < |p.endpoints|
      && var slot := p.endpoints[p.scan.value.next];
         && slot.state in p.states
         && (p.states[slot.state].holder.None? || Unlocked(p.checked, slot, p.states[slot.state].cell))
    case EndScan => p.scan.Some? && p.scan.value.next == |p.endpoints|
  }

  function Locking(g: Guarded, op: Op): Guarded {
    var h := g.cell.health;
    Guarded(g.cell.(health := FirstWrite(h, op)), Some(Pending(op, FirstPhase(h, op), h)))
  }

  /** The next step of a lock holder, and whether it moves the revision. */
  function Continued(g: Guarded): (Guarded, bool)
    requires g.holder.Some?
  {
    var Guarded(cell, Some(Pending(op, phase, before))) := g;
    match phase
    case Raising => (Guarded(cell.(flag := true), Some(Pending(op, Raised, before))), false)
    case Raised =>
      if op.Fail? && cell.health.failures >= op.maxFails && cell.health.blockedUntil.None?
      then (Guarded(cell.(health := cell.health.(blockedUntil := Some(op.until))), Some(Pending(op, Unbumped, before))), false)
      else (Guarded(cell, None), false)
    case Unbumped => (Guarded(cell, Some(Pending(op, Bumped, before))), true)
    case Bumped => (Guarded(if op.Succeed? then cell.(flag := false) else cell, None), false)
  }

  function Step(p: Pool, a: Action): Pool
    requires Enabled(p, a)
  {
    match a
    case Lock(k, op) => p.(states := p.states[k := Locking(p.states[k], op)])
    case Continue(k) =>
      var (next, bumped) := Continued(p.states[k]);
      p.(states := p.states[k := next], revision := p.revision + (if bumped then 1 else 0))
    case Replace(endpoints, states) => p.(endpoints := endpoints, states := states, cached := None)
    case Tick(now) => p.(clock := now)
    case BeginScan => p.(scan := Some(Scan(0, Cached([], p.revision, None))))
    case ScanNext =>
      var Scan(next, partial) := p.scan.value;
      var slot := p.endpoints[next];
      var g := p.states[slot.state];
      var (ok, cell, expires) := Test(p.checked, slot, g.cell, p.clock, partial.expires);
      p.(states := p.states[slot.state := g.(cell := cell)],
         scan := Some(Scan(next + 1,
           partial.(eligible := if ok then partial.eligible + [slot] else partial.eligible, expires := expires))))
    case EndScan => p.(cached := Some(p.scan.value.partial), scan := None)
  }

  /** Agreement of a selection over the first n entries with the settled health. */
  ghost predicate Agrees(p: Pool, c: Cached, n: nat)
    requires n <= |p.endpoints|
    requires forall i | 0 <= i < |p.endpoints| :: p.endpoints[i].state in p.states
  {
    && c.revision <= p.revision
    && (c.revision == p.revision && Usable(c.expires, p.clock) ==>
          && c.eligible == Recompute(p.checked, p.endpoints[..n], Settled(p), p.clock)
          && Covers(p.checked, p.endpoints[..n], Settled(p), p.clock, c.expires))
  }

  /** No cooldown of a weighted entry ends between `now` and `expires`. */
  ghost predicate Covers(
      checked: bool, endpoints: seq<Slot>, health: map<nat, Health>, now: int, expires: Option<int>)
    requires forall i | 0 <= i < |endpoints| :: endpoints[i].state in health
  {
    forall i | 0 <= i < |endpoints| && endpoints[i].weight > 0 ::
      var until := health[endpoints[i].state].blockedUntil;
      until.Some? && until.value > now ==> expires.Some? && expires.value <= until.value
  }

  /** What a held record looks like, given what it was when the lock was taken. */
  predicate Underway(cell: Cell, pending: Pending) {
    var Pending(op, phase, before) := pending;
    && (op.Fail? ==> op.maxFails > 0)
    && match phase
       case Raising => op.Fail? && cell.health == FirstWrite(before, op) && Sound(Cell(cell.flag, before))
       case Raised => op.Fail? && cell.health == FirstWrite(before, op) && cell.flag
       case Unbumped =>
         && cell.health == Outcome(before, op) && !SameVerdict(before, cell.health)
         && (if op.Verdict? then Sound(cell) else cell.flag)
       case Bumped => cell.health == Outcome(before, op) && (op.Fail? ==> cell.flag) && Sound(cell)
  }

  predicate Proper(g: Guarded) {
    if g.holder.None? then Sound(g.cell) else Underway(g.cell, g.holder.value)
  }

  /** Every record is sound, or as its holder left it. */
  ghost predicate Orderly(p: Pool) {
    && (forall k | k in p.states :: Proper(p.states[k]))
    && (forall i | 0 <= i < |p.endpoints| :: p.endpoints[i].state in p.states)
  }

  ghost predicate Valid(p: Pool) {
    && Orderly(p)
    && (p.cached.Some? ==> Agrees(p, p.cached.value, |p.endpoints|))
    && (p.scan.Some? ==> p.scan.value.next <= |p.endpoints| && Agrees(p, p.scan.value.partial, p.scan.value.next))
  }

  predicate SameVerdict(a: Health, b: Health) {
    a.activeOk == b.activeOk && a.blockedUntil.Some? == b.blockedUntil.Some?
  }

  /** Nothing that readiness looks at differs, apart from cooldowns that had run out. */
  ghost predicate SameReadiness(before: map<nat, Health>, after: map<nat, Health>, now: int) {
    forall k | k in before :: k in after && Kept(before[k], after[k], now)
  }

  predicate Kept(before: Health, after: Health, now: int) {
    && before.activeOk == after.activeOk
    && (after.blockedUntil == before.blockedUntil
        || (before.blockedUntil.Some? && before.blockedUntil.value <= now && after.blockedUntil.None?))
  }

  lemma {:induction false} RecomputeStable(
      checked: bool, endpoints: seq<Slot>, before: map<nat, Health>, after: map<nat, Health>,
      now: int, later: int, expires: Option<int>)
    requires forall i | 0 <= i < |endpoints| :: endpoints[i].state in before
    requires SameReadiness(before, after, later) && now <= later && Usable(expires, later)
    requires Covers(checked, endpoints, before, now, expires)
    ensures forall i | 0 <= i < |endpoints| :: endpoints[i].state in after
    ensures Recompute(checked, endpoints, after, later) == Recompute(checked, endpoints, before, now)
    ensures Covers(checked, endpoints, after, later, expires)
    decreases |endpoints|
  {
    if endpoints != [] {
      var last := endpoints[|endpoints| - 1];
      RecomputeStable(checked, endpoints[..|endpoints| - 1], before, after, now, later, expires);
      assert last == endpoints[|endpoints| - 1];
    }
  }

  lemma AgreesStable(p: Pool, q: Pool, c: Cached, n: nat)
    requires n <= |p.endpoints| && q.endpoints == p.endpoints && q.checked == p.checked
    requires forall i | 0 <= i < |p.endpoints| :: p.endpoints[i].state in p.states && p.endpoints[i].state in q.states
    requires p.clock <= q.clock && p.revision <= q.revision
    requires q.revision == p.revision ==> SameReadiness(Settled(p), Settled(q), q.clock)
    requires Agrees(p, c, n)
    ensures Agrees(q, c, n)
  {
    hide Settled;
    if c.revision == q.revision && Usable(c.expires, q.clock) {
      assert forall i | 0 <= i < |p.endpoints[..n]| :: p.endpoints[..n][i] == p.endpoints[i];
      RecomputeStable(p.checked, p.endpoints[..n], Settled(p), Settled(q), p.clock, q.clock, c.expires);
    }
  }

  /** One readiness test. At rest its answer is eligibility and nothing settled moves; a test that
      takes no lock sees of a held record what was there before. */
  lemma TestDecides(checked: bool, slot: Slot, g: Guarded, now: int, expires: Option<int>)
    requires Proper(g) && (g.holder.None? || Unlocked(checked, slot, g.cell))
    ensures var (ok, cell, expires') := Test(checked, slot, g.cell, now, expires);
            var after := g.(cell := cell);
            && Proper(after)
            && Kept(SettledRecord(g), SettledRecord(after), now) && Kept(g.cell.health, after.cell.health, now)
            && Tested(checked, slot, SettledRecord(after), now, ok, expires, expires')
  {
  }

  predicate Tested(
      checked: bool, slot: Slot, h: Health, now: int, ok: bool, expires: Option<int>, expires': Option<int>)
  {
    && (ok <==> Eligible(checked, slot, h, now))
    && (expires.Some? ==> expires'.Some? && expires'.value <= expires.value)
    && (slot.weight > 0 && h.blockedUntil.Some? && h.blockedUntil.value > now ==>
          expires'.Some? && expires'.value <= h.blockedUntil.value)
  }

  lemma RecomputeSnoc(checked: bool, endpoints: seq<Slot>, health: map<nat, Health>, now: int, n: nat)
    requires n < |endpoints| && forall i | 0 <= i < |endpoints| :: endpoints[i].state in health
    ensures Recompute(checked, endpoints[..n + 1], health, now)
         == Recompute(checked, endpoints[..n], health, now)
            + (if Eligible(checked, endpoints[n], health[endpoints[n].state], now) then [endpoints[n]] else [])
  {
    assert endpoints[..n + 1][..n] == endpoints[..n];
  }

  lemma CoversSnoc(
      checked: bool, endpoints: seq<Slot>, health: map<nat, Health>, now: int, n: nat,
      expires: Option<int>, expires': Option<int>)
    requires n < |endpoints| && forall i | 0 <= i < |endpoints| :: endpoints[i].state in health
    requires Covers(checked, endpoints[..n], health, now, expires)
    requires expires.Some? ==> expires'.Some? && expires'.value <= expires.value
    requires var until := health[endpoints[n].state].blockedUntil;
             endpoints[n].weight > 0 && until.Some? && until.value > now ==>
               expires'.Some? && expires'.value <= until.value
    ensures Covers(checked, endpoints[..n + 1], health, now, expires')
  {
    forall i | 0 <= i < n ensures endpoints[..n + 1][i] == endpoints[..n][i] {
    }
  }

  /** What one scan step does to the records. */
  lemma ScanNextSettles(p: Pool)
    requires Orderly(p) && Enabled(p, ScanNext)
    ensures var q, slot := Step(p, ScanNext), p.endpoints[p.scan.value.next];
            && Orderly(q) && SameReadiness(Settled(p), Settled(q), q.clock)
            && SameReadiness(InMemory(p), InMemory(q), q.clock)
            && slot.state in q.states
            && var partial, partial' := p.scan.value.partial, q.scan.value.partial;
               exists ok :: Tested(q.checked, slot, Settled(q)[slot.state], q.clock, ok, partial.expires, partial'.expires)
                 && partial'.eligible == if ok then partial.eligible + [slot] else partial.eligible
  {
    var partial := p.scan.value.partial;
    var slot := p.endpoints[p.scan.value.next];
    var g := p.states[slot.state];
    TestDecides(p.checked, slot, g, p.clock, partial.expires);
    var (ok, cell, expires) := Test(p.checked, slot, g.cell, p.clock, partial.expires);
    hide Test, Tested, Kept, Proper, SettledRecord, Orderly, SameReadiness;
    var q := Step(p, ScanNext);
    ReplacingOne(p, q, slot.state, g.(cell := cell));
    assert Tested(q.checked, slot, Settled(q)[slot.state], q.clock, ok, partial.expires, expires);
  }

  /** Replacing one record by another with the same readiness. */
  lemma ReplacingOne(p: Pool, q: Pool, k: nat, g: Guarded)
    requires k in p.states && q.states == p.states[k := g] && q.endpoints == p.endpoints && Orderly(p) && Proper(g)
    ensures Orderly(q)
    ensures Kept(SettledRecord(p.states[k]), SettledRecord(g), q.clock) ==> SameReadiness(Settled(p), Settled(q), q.clock)
    ensures Kept(p.states[k].cell.health, g.cell.health, q.clock) ==> SameReadiness(InMemory(p), InMemory(q), q.clock)
  {
    hide Proper, SettledRecord;
  }

  lemma ScanNextKeepsValid(p: Pool)
    requires Valid(p) && Enabled(p, ScanNext)
    ensures Valid(Step(p, ScanNext))
  {
    ScanNextSettles(p);
    hide Settled, Test, Recompute, Covers, SameReadiness;
    var q := Step(p, ScanNext);
    var n, partial := p.scan.value.next, p.scan.value.partial;
    AgreesStable(p, q, partial, n);
    if p.cached.Some? {
      AgreesStable(p, q, p.cached.value, |p.endpoints|);
    }
    ScanExtends(q, partial, q.scan.value.partial, n);
    hide Agrees;
  }

  lemma ScanExtends(q: Pool, partial: Cached, partial': Cached, n: nat)
    requires n < |q.endpoints| && forall i | 0 <= i < |q.endpoints| :: q.endpoints[i].state in q.states
    requires Agrees(q, partial, n) && partial'.revision == partial.revision
    requires exists ok ::
               && Tested(q.checked, q.endpoints[n], Settled(q)[q.endpoints[n].state], q.clock, ok,
                         partial.expires, partial'.expires)
               && partial'.eligible == if ok then partial.eligible + [q.endpoints[n]] else partial.eligible
    ensures Agrees(q, partial', n + 1)
  {
    hide Recompute, Covers;
    RecomputeSnoc(q.checked, q.endpoints, Settled(q), q.clock, n);
    hide Settled;
    if partial'.revision == q.revision && Usable(partial'.expires, q.clock) {
      CoversSnoc(q.checked, q.endpoints, Settled(q), q.clock, n, partial.expires, partial'.expires);
    }
  }

  lemma LockingSettles(g: Guarded, op: Op)
    requires Proper(g) && g.holder.None? && (op.Fail? ==> op.maxFails > 0)
    ensures Proper(Locking(g, op)) && SettledSame(g, Locking(g, op))
  {
  }

  /** Nothing that readiness looks at differs. */
  predicate SettledSame(g: Guarded, after: Guarded) {
    && SettledRecord(g).activeOk == SettledRecord(after).activeOk
    && SettledRecord(g).blockedUntil == SettledRecord(after).blockedUntil
  }

  /** A holder's step moves the settled record exactly when it moves the revision, and the lock is
      released on what the whole operation makes of the record. */
  lemma ContinuedSettles(g: Guarded)
    requires Proper(g) && g.holder.Some?
    ensures var (after, bumped) := Continued(g);
            && Proper(after)
            && (after.holder.None? ==> after.cell.health == Outcome(g.holder.value.before, g.holder.value.op))
            && (if bumped then !SameVerdict(SettledRecord(g), SettledRecord(after)) else SettledSame(g, after))
  {
  }

  /** Taking a lock and a holder's steps move a settled record exactly when they move the revision. */
  lemma HolderSettles(p: Pool, a: Action)
    requires Orderly(p) && Enabled(p, a) && (a.Lock? || a.Continue?)
    ensures var q := Step(p, a);
            && Orderly(q) && p.revision <= q.revision <= p.revision + 1 && a.state in p.states
            && (q.revision == p.revision ==>
                  && SameReadiness(Settled(p), Settled(q), q.clock)
                  && forall k | k in p.states :: SameVerdict(Settled(p)[k], Settled(q)[k]))
            && (q.revision != p.revision ==> !SameVerdict(Settled(p)[a.state], Settled(q)[a.state]))
  {
    if a.Lock? {
      LockingSettles(p.states[a.state], a.op);
    } else {
      ContinuedSettles(p.states[a.state]);
    }
    hide Locking, Continued, Proper, SettledRecord, Orderly, SameReadiness;
    ReplacingOne(p, Step(p, a), a.state, Step(p, a).states[a.state]);
  }

  lemma ChangeKeepsValid(p: Pool, a: Action)
    requires Valid(p) && Enabled(p, a) && (a.Lock? || a.Continue? || a.Tick?)
    ensures Valid(Step(p, a))
  {
    var q := Step(p, a);
    if a.Tick? {
      assert Settled(q) == Settled(p);
    } else {
      HolderSettles(p, a);
    }
    hide Settled, Recompute, Covers, Proper, Locking, Continued;
    if p.cached.Some? {
      AgreesStable(p, q, p.cached.value, |p.endpoints|);
    }
    if p.scan.Some? {
      AgreesStable(p, q, p.scan.value.partial, p.scan.value.next);
    }
  }

  lemma StepKeepsValid(p: Pool, a: Action)
    requires Valid(p) && Enabled(p, a)
    ensures Valid(Step(p, a))
  {
    match a
    case ScanNext => ScanNextKeepsValid(p);
    case BeginScan =>
      assert p.endpoints[..0] == [];
    case EndScan =>
      assert Settled(Step(p, a)) == Settled(p);
    case Replace(_, _) =>
    case _ => ChangeKeepsValid(p, a);
  }

  ghost predicate Initial(p: Pool) {
    && p.cached.None? && p.scan.None? && p.revision == 0
    && (forall k | k in p.states :: p.states[k] == Guarded(Cell(false, HEALTHY), None))
    && (forall i | 0 <= i < |p.endpoints| :: p.endpoints[i].state in p.states)
  }

  ghost predicate Reaches(p: Pool, actions: seq<Action>, q: Pool)
    decreases |actions|
  {
    if actions == [] then q == p
    else Enabled(p, actions[0]) && Reaches(Step(p, actions[0]), actions[1..], q)
  }

  lemma {:induction false} ReachableIsValid(p: Pool, actions: seq<Action>, q: Pool)
    requires Valid(p) && Reaches(p, actions, q)
    ensures Valid(q)
    decreases |actions|
  {
    if actions != [] {
      StepKeepsValid(p, actions[0]);
      ReachableIsValid(Step(p, actions[0]), actions[1..], q);
    }
  }

  /** After any run, a selection that may be reused is the one a scan would make if every change
      took effect at its bump. */
  lemma ReusedSelectionIsSettled(p: Pool, actions: seq<Action>, q: Pool)
    requires Initial(p) && Reaches(p, actions, q) && !Stale(q)
    ensures forall i | 0 <= i < |q.endpoints| :: q.endpoints[i].state in q.states
    ensures q.cached.value.eligible == Recompute(q.checked, q.endpoints, Settled(q), q.clock)
  {
    ReachableIsValid(p, actions, q);
    assert q.endpoints[..|q.endpoints|] == q.endpoints;
  }

  /** Some entry's eligibility has been decided anew by a holder that has not yet moved the revision. */
  ghost predicate DecidedUnbumped(p: Pool)
    requires forall i | 0 <= i < |p.endpoints| :: p.endpoints[i].state in p.states
  {
    exists i | 0 <= i < |p.endpoints| :: UnbumpedChange(p, p.endpoints[i])
  }

  predicate UnbumpedChange(p: Pool, slot: Slot)
    requires slot.state in p.states
  {
    var Guarded(cell, holder) := p.states[slot.state];
    && holder.Some? && holder.value.phase == Unbumped
    && Eligible(p.checked, slot, holder.value.before, p.clock) != Eligible(p.checked, slot, cell.health, p.clock)
  }

  /** A reusable selection is the one a fresh scan of memory would make now exactly when no holder
      between its write and its bump has changed whether an entry may be chosen. */
  lemma ReusedSelectionIsCurrentIff(p: Pool, actions: seq<Action>, q: Pool)
    requires Initial(p) && Reaches(p, actions, q) && !Stale(q)
    ensures forall i | 0 <= i < |q.endpoints| :: q.endpoints[i].state in q.states
    ensures q.cached.value.eligible == Recompute(q.checked, q.endpoints, InMemory(q), q.clock)
            <==> !DecidedUnbumped(q)
  {
    ReachableIsValid(p, actions, q);
    ReusedSelectionIsSettled(p, actions, q);
    forall i | 0 <= i < |q.endpoints|
      ensures UnbumpedChange(q, q.endpoints[i])
              <==> Eligible(q.checked, q.endpoints[i], Settled(q)[q.endpoints[i].state], q.clock)
                   != Eligible(q.checked, q.endpoints[i], InMemory(q)[q.endpoints[i].state], q.clock)
    {
      SettledDiffers(q, q.endpoints[i]);
    }
    hide UnbumpedChange, Eligible, Settled, InMemory, Reaches, Initial, Valid;
    SameRecomputeIff(q.checked, q.endpoints, Settled(q), InMemory(q), q.clock);
  }

  lemma SettledDiffers(p: Pool, slot: Slot)
    requires Orderly(p) && slot.state in p.states
    ensures UnbumpedChange(p, slot)
            <==> Eligible(p.checked, slot, Settled(p)[slot.state], p.clock)
                 != Eligible(p.checked, slot, InMemory(p)[slot.state], p.clock)
  {
  }

  /** In particular whenever no holder is between its write and its bump. */
  lemma ReusedSelectionIsCurrent(p: Pool, actions: seq<Action>, q: Pool)
    requires Initial(p) && Reaches(p, actions, q) && !Stale(q)
    requires forall k | k in q.states && q.states[k].holder.Some? :: q.states[k].holder.value.phase != Unbumped
    ensures forall i | 0 <= i < |q.endpoints| :: q.endpoints[i].state in q.states
    ensures q.cached.value.eligible == Recompute(q.checked, q.endpoints, InMemory(q), q.clock)
  {
    hide Recompute, Reaches, Initial, Stale;
    ReusedSelectionIsCurrentIff(p, actions, q);
  }

  lemma {:induction false} RecomputeMembers(
      checked: bool, endpoints: seq<Slot>, health: map<nat, Health>, now: int, slot: Slot)
    requires forall i | 0 <= i < |endpoints| :: endpoints[i].state in health
    ensures slot in Recompute(checked, endpoints, health, now)
            <==> slot in endpoints && Eligible(checked, slot, health[slot.state], now)
    decreases |endpoints|
  {
    if endpoints != [] {
      var front, last := endpoints[..|endpoints| - 1], endpoints[|endpoints| - 1];
      assert slot in endpoints <==> slot in front || slot == last;
      RecomputeMembers(checked, front, health, now, slot);
    }
  }

  lemma {:induction false} SameRecompute(
      checked: bool, endpoints: seq<Slot>, a: map<nat, Health>, b: map<nat, Health>, now: int)
    requires forall i | 0 <= i < |endpoints| :: endpoints[i].state in a && endpoints[i].state in b
    requires forall i | 0 <= i < |endpoints| ::
               Eligible(checked, endpoints[i], a[endpoints[i].state], now)
               == Eligible(checked, endpoints[i], b[endpoints[i].state], now)
    ensures Recompute(checked, endpoints, a, now) == Recompute(checked, endpoints, b, now)
    decreases |endpoints|
  {
    if endpoints != [] {
      SameRecompute(checked, endpoints[..|endpoints| - 1], a, b, now);
    }
  }

  /** Two scans agree exactly when they find the same entries eligible. */
  lemma SameRecomputeIff(
      checked: bool, endpoints: seq<Slot>, a: map<nat, Health>, b: map<nat, Health>, now: int)
    requires forall i | 0 <= i < |endpoints| :: endpoints[i].state in a && endpoints[i].state in b
    ensures Recompute(checked, endpoints, a, now) == Recompute(checked, endpoints, b, now)
            <==> forall i | 0 <= i < |endpoints| ::
                   Eligible(checked, endpoints[i], a[endpoints[i].state], now)
                   == Eligible(checked, endpoints[i], b[endpoints[i].state], now)
  {
    hide Recompute, Eligible;
    if Recompute(checked, endpoints, a, now) == Recompute(checked, endpoints, b, now) {
      forall i | 0 <= i < |endpoints|
        ensures Eligible(checked, endpoints[i], a[endpoints[i].state], now)
             == Eligible(checked, endpoints[i], b[endpoints[i].state], now)
      {
        RecomputeMembers(checked, endpoints, a, now, endpoints[i]);
        RecomputeMembers(checked, endpoints, b, now, endpoints[i]);
      }
    } else if forall i | 0 <= i < |endpoints| ::
        Eligible(checked, endpoints[i], a[endpoints[i].state], now)
        == Eligible(checked, endpoints[i], b[endpoints[i].state], now) {
      SameRecompute(checked, endpoints, a, b, now);
    }
  }

  /** Such a state does occur: with the ejection of one of two endpoints written but not yet bumped,
      the cached selection may be reused and still names both. */
  lemma UnbumpedEjectionIsMissed()
    ensures exists p, actions, q ::
              && Initial(p) && Reaches(p, actions, q) && !Stale(q)
              && (forall i | 0 <= i < |q.endpoints| :: q.endpoints[i].state in q.states)
              && q.cached.value.eligible == q.endpoints != []
              && Recompute(q.checked, q.endpoints, InMemory(q), q.clock) == q.endpoints[1..]
  {
    var slots := [Slot(1, 0), Slot(1, 1)];
    var p := Pool(false, slots, map[0 := AT_REST, 1 := AT_REST], 0, None, None, 0);
    var q := p.(
      cached := Some(Cached(slots, 0, None)),
      states := p.states[0 := Ejecting(true, Some(100), Unbumped)]);
    var tail := EjectFirst(p.(cached := Some(Cached(slots, 0, None))), q);
    var actions := ScanBoth(p, slots, tail, q);
    assert Initial(p);
    assert q.endpoints[..1] == [Slot(1, 0)] && q.endpoints[..1][..0] == [];
    assert Recompute(false, [], InMemory(q), 0) == [];
    assert Recompute(false, q.endpoints[..1], InMemory(q), 0) == [];
    assert Recompute(false, q.endpoints, InMemory(q), 0) == q.endpoints[1..];
  }

  lemma ReachesStep(p: Pool, a: Action, actions: seq<Action>, q: Pool)
    requires Enabled(p, a) && Reaches(Step(p, a), actions, q)
    ensures Reaches(p, [a] + actions, q)
  {
    assert ([a] + actions)[1..] == actions;
  }

  lemma ScanBoth(p: Pool, slots: seq<Slot>, tail: seq<Action>, q: Pool) returns (actions: seq<Action>)
    requires slots == [Slot(1, 0), Slot(1, 1)]
    requires p == Pool(false, slots, map[0 := AT_REST, 1 := AT_REST], 0, None, None, 0)
    requires Reaches(p.(cached := Some(Cached(slots, 0, None))), tail, q)
    ensures Reaches(p, actions, q)
  {
    hide Reaches;
    var s0 := p.(scan := Some(Scan(0, Cached([], 0, None))));
    var s1 := p.(scan := Some(Scan(1, Cached([slots[0]], 0, None))));
    var s2 := p.(scan := Some(Scan(2, Cached(slots, 0, None))));
    assert p.states[0 := AT_REST] == p.states == p.states[1 := AT_REST];
    assert [] + [slots[0]] == [slots[0]] && [slots[0]] + [slots[1]] == slots;
    assert Step(p, BeginScan) == s0;
    assert Step(s0, ScanNext) == s1;
    assert Step(s1, ScanNext) == s2;
    ReachesStep(s2, EndScan, tail, q);
    ReachesStep(s1, ScanNext, [EndScan] + tail, q);
    ReachesStep(s0, ScanNext, [ScanNext] + ([EndScan] + tail), q);
    ReachesStep(p, BeginScan, [ScanNext] + ([ScanNext] + ([EndScan] + tail)), q);
    actions := [BeginScan] + ([ScanNext] + ([ScanNext] + ([EndScan] + tail)));
  }

  const AT_REST := Guarded(Cell(false, HEALTHY), None)

  /** The first endpoint while its first failure is being recorded. */
  function Ejecting(flag: bool, blockedUntil: Option<int>, phase: Phase): Guarded {
    Guarded(Cell(flag, Health(1, blockedUntil, None)), Some(Pending(Fail(1, 100), phase, HEALTHY)))
  }

  /** A failure that ejects, stopped before its bump. */
  lemma EjectFirst(p: Pool, q: Pool) returns (actions: seq<Action>)
    requires 0 in p.states && p.states[0] == AT_REST
    requires q == p.(states := p.states[0 := Ejecting(true, Some(100), Unbumped)])
    ensures Reaches(p, actions, q)
  {
    hide Reaches;
    var p1 := p.(states := p.states[0 := Ejecting(false, None, Raising)]);
    var p2 := p.(states := p.states[0 := Ejecting(true, None, Raised)]);
    assert Step(p, Lock(0, Fail(1, 100))) == p1;
    assert Step(p1, Continue(0)) == p2;
    assert Step(p2, Continue(0)) == q;
    assert Reaches(q, [], q) by {
      ReachesNothing(q);
    }
    ReachesStep(p2, Continue(0), [], q);
    ReachesStep(p1, Continue(0), [Continue(0)] + [], q);
    ReachesStep(p, Lock(0, Fail(1, 100)), [Continue(0)] + ([Continue(0)] + []), q);
    actions := [Lock(0, Fail(1, 100))] + ([Continue(0)] + ([Continue(0)] + []));
  }

  lemma ReachesNothing(p: Pool)
    ensures Reaches(p, [], p)
  {
  }

  /** Outside scans and refreshes the revision moves exactly when some settled cooldown appears or
      disappears or some settled verdict changes, and then by one. */
  lemma RevisionCountsChanges(p: Pool, a: Action)
    requires Valid(p) && Enabled(p, a) && !a.ScanNext? && !a.Replace?
    ensures var q := Step(p, a);
            && q.states.Keys == p.states.Keys
            && q.revision == p.revision +
               (if forall k | k in p.states :: SameVerdict(Settled(p)[k], Settled(q)[k]) then 0 else 1)
  {
    if a.Lock? || a.Continue? {
      HolderSettles(p, a);
      hide Settled;
    } else {
      assert Settled(Step(p, a)) == Settled(p);
    }
  }

  /** A scan may drop a cooldown that has run out, and only that, without moving the revision. */
  lemma ScanDropsOnlyExpired(p: Pool, k: nat)
    requires Valid(p) && Enabled(p, ScanNext) && k in p.states
    ensures var q := Step(p, ScanNext);
            && q.revision == p.revision && k in q.states
            && Kept(Settled(p)[k], Settled(q)[k], p.clock)
            && Kept(InMemory(p)[k], InMemory(q)[k], p.clock)
  {
    ScanNextSettles(p);
  }
}
