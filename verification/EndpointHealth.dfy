/** Passive ejection and active verdicts of one endpoint. */
module EndpointHealth {
  import opened Options

  const USIZE_MAX: nat := 0xFFFF_FFFF_FFFF_FFFF

  /** What the health lock protects; instants are numbers on a clock that never goes back. */
  datatype Health = Health(failures: nat, blockedUntil: Option<int>, activeOk: Option<bool>)

  const HEALTHY := Health(0, None, None)

  function SaturatingIncrement(n: nat): nat {
    if n < USIZE_MAX then n + 1 else n
  }

  datatype Recorded = Recorded(health: Health, ejected: bool, bumped: bool)

  /** Recording one result with the lock held throughout: the reference behaviour. */
  function Locked(h: Health, failed: bool, maxFails: nat, until: int): Recorded {
    if failed && maxFails == 0 then Recorded(h, false, false)
    else if !failed then
      Recorded(h.(failures := 0, blockedUntil := None), false, h.blockedUntil.Some?)
    else
      var failures := SaturatingIncrement(h.failures);
      if failures >= maxFails && h.blockedUntil.None?
      then Recorded(h.(failures := failures, blockedUntil := Some(until)), true, true)
      else Recorded(h.(failures := failures), false, false)
  }

  /** An endpoint's memory: the flag that may be read without the lock, and the locked record. */
  datatype Cell = Cell(flag: bool, health: Health)

  /** A false flag promises that there is nothing to clear. */
  predicate Sound(c: Cell) {
    !c.flag ==> c.health.failures == 0 && c.health.blockedUntil.None?
  }

  /** Recording one result the way the code does, with the unlocked test in front. */
  function Record(c: Cell, failed: bool, maxFails: nat, until: int): (Cell, bool, bool) {
    if (!failed && !c.flag) || (failed && maxFails == 0) then (c, false, false)
    else
      var r := Locked(c.health, failed, maxFails, until);
      (Cell(failed, r.health), r.ejected, r.bumped)
  }

  /** The fast path is invisible: health, answer and revision are those of the locked version. */
  lemma FastPathRefinesLocked(c: Cell, failed: bool, maxFails: nat, until: int)
    requires Sound(c)
    ensures var (after, ejected, bumped) := Record(c, failed, maxFails, until);
            Sound(after) && Recorded(after.health, ejected, bumped) == Locked(c.health, failed, maxFails, until)
  {
  }

  /** The revision moves exactly when a cooldown appears or disappears; an ejection is an appearance. */
  lemma BumpIffCooldownChanges(h: Health, failed: bool, maxFails: nat, until: int)
    ensures var r := Locked(h, failed, maxFails, until);
            && (r.bumped <==> r.health.blockedUntil.Some? != h.blockedUntil.Some?)
            && (r.ejected <==> r.health.blockedUntil.Some? && h.blockedUntil.None?)
            && (!r.bumped ==> r.health.blockedUntil == h.blockedUntil)
            && r.health.activeOk == h.activeOk
  {
  }

  /** Testing readiness clears a cooldown that has run out, without moving the revision. */
  function Expire(h: Health, now: int): Health {
    if h.blockedUntil.Some? && h.blockedUntil.value <= now
    then h.(failures := 0, blockedUntil := None) else h
  }

  /** The counter shared by all endpoints of a backend. */
  class Revision {
    var value: nat

    constructor ()
      ensures value == 0
    {
      value := 0;
    }
  }

  class EndpointState {
    var flag: bool
    var failures: nat
    var blockedUntil: Option<int>
    var activeOk: Option<bool>
    var active: nat

    function View(): Cell
      reads this
    {
      Cell(flag, Health(failures, blockedUntil, activeOk))
    }

    constructor ()
      ensures View() == Cell(false, HEALTHY) && active == 0
    {
      flag, failures, blockedUntil, activeOk, active := false, 0, None, None, 0;
    }

    method RecordResult(failed: bool, maxFails: nat, until: int, revision: Revision) returns (ejected: bool)
      requires Sound(View())
      modifies this`flag, this`failures, this`blockedUntil, revision
      ensures Sound(View())
      ensures var r := Locked(old(View().health), failed, maxFails, until);
              && View().health == r.health
              && ejected == r.ejected
              && revision.value == old(revision.value) + (if r.bumped then 1 else 0)
    {
      if (!failed && !flag) || (failed && maxFails == 0) {
        return false;
      }
      if !failed {
        failures := 0;
        if blockedUntil.Some? {
          blockedUntil := None;
          revision.value := revision.value + 1;
        }
        flag := false;
        return false;
      }
      failures := SaturatingIncrement(failures);
      flag := true;
      if failures >= maxFails && blockedUntil.None? {
        blockedUntil := Some(until);
        revision.value := revision.value + 1;
        return true;
      }
      return false;
    }

    method SetActiveHealth(ok: bool, revision: Revision)
      modifies this`activeOk, revision
      ensures View() == old(View()).(health := old(View().health).(activeOk := Some(ok)))
      ensures revision.value == old(revision.value) + (if old(activeOk) != Some(ok) then 1 else 0)
    {
      if activeOk != Some(ok) {
        activeOk := Some(ok);
        revision.value := revision.value + 1;
      }
    }
  }
}
