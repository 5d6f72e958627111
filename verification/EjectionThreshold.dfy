/** When an endpoint is ejected and when it is ready, told from the results, readiness tests and verdicts
    alone: what a legal order of whole calls must answer at each of its entries. */
module EjectionThreshold {
  import opened Options
  import opened Counting
  import opened EndpointHealth
  import opened ResultInterleavings
  import SelectionCache

  /** A failed result that counts towards ejection. */
  function CountedFailure(): Entry -> bool {
    (e: Entry) => e.op.Result? && e.op.failed && e.op.maxFails > 0
  }

  predicate Succeeds(op: Op) {
    op.Result? && !op.failed
  }

  /** The call ends a cooldown that runs until `until`. */
  predicate Lifts(op: Op, until: int) {
    Succeeds(op) || (op.Ready? && op.weight > 0 && op.now >= until)
  }

  /** The k-th call ejected the endpoint until `until`, and none of the first n after it lifted that. */
  ghost predicate EjectedAt(order: seq<Entry>, n: int, k: int, until: int) {
    && 0 <= k < n <= |order|
    && CountedFailure()(order[k]) && order[k].answer && order[k].op.until == until
    && forall j | k < j < n :: !Lifts(order[j].op, until)
  }

  /** Before the n-th call a cooldown is in force that runs until `until`. */
  ghost predicate InForce(order: seq<Entry>, n: int, until: int) {
    exists k :: EjectedAt(order, n, k, until)
  }

  /** The j-th call starts the count of failures anew: a success, or a test finding a cooldown run out. */
  ghost predicate Resets(order: seq<Entry>, j: int) {
    && 0 <= j < |order|
    && var op := order[j].op;
       Succeeds(op) || (op.Ready? && op.weight > 0 && exists until :: InForce(order, j, until) && until <= op.now)
  }

  lemma InForceNext(order: seq<Entry>, n: nat, until: int)
    requires 0 < n <= |order|
    ensures InForce(order, n, until) <==>
            || (CountedFailure()(order[n - 1]) && order[n - 1].answer && order[n - 1].op.until == until)
            || (InForce(order, n - 1, until) && !Lifts(order[n - 1].op, until))
  {
    if InForce(order, n, until) {
      var k :| EjectedAt(order, n, k, until);
      assert k < n - 1 ==> EjectedAt(order, n - 1, k, until);
    }
    if InForce(order, n - 1, until) && !Lifts(order[n - 1].op, until) {
      var k :| EjectedAt(order, n - 1, k, until);
      assert EjectedAt(order, n, k, until);
    }
    if CountedFailure()(order[n - 1]) && order[n - 1].answer && order[n - 1].op.until == until {
      assert EjectedAt(order, n, n - 1, until);
    }
  }

  lemma ReplayNext(order: seq<Entry>, n: nat)
    requires 0 < n <= |order|
    ensures Replay(order[..n]) == Whole(Replay(order[..n - 1]), order[n - 1].op).0
  {
    assert order[..n][..n - 1] == order[..n - 1];
  }

  /** The record's cooldown is the one in force. */
  lemma {:induction false} CooldownIsInForce(order: seq<Entry>, n: nat, until: int)
    requires Legal(order) && n <= |order|
    ensures Replay(order[..n]).blockedUntil == Some(until) <==> InForce(order, n, until)
    decreases n
  {
    if n > 0 {
      hide Replay, InForce, Legal, Whole, Lifts;
      ReplayNext(order, n);
      InForceNext(order, n, until);
      CooldownIsInForce(order, n - 1, until);
      AnswerAt(order, n - 1);
      CooldownAfter(Replay(order[..n - 1]), order[n - 1], until);
    }
  }

  /** A whole call leaves a cooldown that it sets by ejecting, or one that it does not lift. */
  lemma CooldownAfter(h: Health, e: Entry, until: int)
    requires e.answer == Whole(h, e.op).1
    ensures Whole(h, e.op).0.blockedUntil == Some(until) <==>
            || (CountedFailure()(e) && e.answer && e.op.until == until)
            || (h.blockedUntil == Some(until) && !Lifts(e.op, until))
  {
  }

  lemma AnswerAt(order: seq<Entry>, k: nat)
    requires Legal(order) && k < |order|
    ensures order[k].answer == Whole(Replay(order[..k]), order[k].op).1
  {
  }

  /** No call from the m-th to the n-th resets the count, and the one before them does, if any. */
  ghost predicate Streak(order: seq<Entry>, m: int, n: int) {
    && 0 <= m <= n <= |order|
    && (m == 0 || Resets(order, m - 1))
    && forall j | m <= j < n :: !Resets(order, j)
  }

  /** Every call has such a streak before it. */
  lemma {:induction false} StreakExists(order: seq<Entry>, n: nat)
    requires n <= |order|
    ensures exists m :: Streak(order, m, n)
    decreases n
  {
    if n == 0 {
      assert Streak(order, 0, 0);
    } else if Resets(order, n - 1) {
      assert Streak(order, n, n);
    } else {
      StreakExists(order, n - 1);
      var m :| Streak(order, m, n - 1);
      assert Streak(order, m, n);
    }
  }

  /** The record's failures are the counted ones since the last reset, up to the width of the counter. */
  lemma {:induction false} FailuresSinceReset(order: seq<Entry>, m: nat, n: nat)
    requires Legal(order) && Streak(order, m, n)
    ensures var count := Count(CountedFailure(), order[m..n]);
            Replay(order[..n]).failures == if count <= USIZE_MAX then count else USIZE_MAX
    decreases n
  {
    hide Legal, InForce, Count, Replay;
    if n > 0 && order[n - 1].op.Ready? && order[n - 1].op.weight > 0 {
      ExpiredBefore(order, n - 1);
    }
    if m == n {
      CountNothing(order[m..n]);
      if n > 0 {
        ReplayNext(order, n);
      } else {
        ReplayNothing(order);
      }
    } else {
      ReplayNext(order, n);
      AnswerAt(order, n - 1);
      assert !Resets(order, n - 1);
      FailuresSinceReset(order, m, n - 1);
      assert order[m..n] == order[m..n - 1] + [order[n - 1]];
      CountConcat(CountedFailure(), order[m..n - 1], [order[n - 1]]);
      CountOne(order[n - 1]);
    }
  }

  lemma CountNothing(s: seq<Entry>)
    requires s == []
    ensures Count(CountedFailure(), s) == 0
  {
  }

  lemma CountOne(e: Entry)
    ensures Count(CountedFailure(), [e]) == if CountedFailure()(e) then 1 else 0
  {
  }

  lemma ReplayNothing(order: seq<Entry>)
    ensures Replay(order[..0]) == HEALTHY
  {
  }

  /** A readiness test resets exactly when it finds a cooldown that has run out. */
  lemma ExpiredBefore(order: seq<Entry>, k: nat)
    requires Legal(order) && k < |order| && order[k].op.Ready? && order[k].op.weight > 0
    ensures var before := Replay(order[..k]).blockedUntil;
            Resets(order, k) <==> before.Some? && before.value <= order[k].op.now
  {
    hide Legal, InForce, Replay;
    forall until: int ensures Replay(order[..k]).blockedUntil == Some(until) <==> InForce(order, k, until) {
      CooldownIsInForce(order, k, until);
    }
  }

  /** In any legal order a failed result is answered true, and so ejects, exactly when no cooldown is
      in force and the failures since the last success or expiry, this one included, number at least
      its threshold. (A threshold is never wider than the counter.) */
  lemma EjectsAtThreshold(order: seq<Entry>, m: nat, k: nat)
    requires Legal(order) && Streak(order, m, k) && k < |order|
    requires order[k].op.Result? && order[k].op.failed && order[k].op.maxFails > 0
    ensures order[k].answer <==>
            && (forall until :: !InForce(order, k, until))
            && Count(CountedFailure(), order[m..k]) + 1 >= order[k].op.maxFails
            && order[k].op.maxFails <= 0xFFFF_FFFF_FFFF_FFFF
  {
    hide Legal, InForce, Count, Replay;
    AnswerAt(order, k);
    FailuresSinceReset(order, m, k);
    forall until: int ensures Replay(order[..k]).blockedUntil == Some(until) <==> InForce(order, k, until) {
      CooldownIsInForce(order, k, until);
    }
    var before := Replay(order[..k]);
    assert before.blockedUntil.Some? ==> InForce(order, k, before.blockedUntil.value);
  }

  /** The j-th call is the last of the first n that recorded an active verdict. */
  ghost predicate LastVerdict(order: seq<Entry>, n: int, j: int, ok: bool) {
    && 0 <= j < n <= |order|
    && order[j].op == Verdict(ok)
    && forall i | j < i < n :: !order[i].op.Verdict?
  }

  ghost predicate LastWas(order: seq<Entry>, n: int, ok: bool) {
    exists j :: LastVerdict(order, n, j, ok)
  }

  lemma {:induction false} VerdictIsLast(order: seq<Entry>, n: nat, ok: bool)
    requires n <= |order|
    ensures Replay(order[..n]).activeOk == Some(ok) <==> LastWas(order, n, ok)
    decreases n
  {
    if n > 0 {
      hide Replay, LastWas;
      ReplayNext(order, n);
      VerdictIsLast(order, n - 1, ok);
      LastWasNext(order, n, ok);
    }
  }

  lemma LastWasNext(order: seq<Entry>, n: nat, ok: bool)
    requires 0 < n <= |order|
    ensures LastWas(order, n, ok) <==>
            if order[n - 1].op.Verdict? then order[n - 1].op.ok == ok else LastWas(order, n - 1, ok)
  {
    if LastWas(order, n, ok) {
      var j :| LastVerdict(order, n, j, ok);
      assert j < n - 1 ==> LastVerdict(order, n - 1, j, ok);
    }
    if order[n - 1].op == Verdict(ok) {
      assert LastVerdict(order, n, n - 1, ok);
    } else if !order[n - 1].op.Verdict? && LastWas(order, n - 1, ok) {
      var j :| LastVerdict(order, n - 1, j, ok);
      assert LastVerdict(order, n, j, ok);
    }
  }

  /** A readiness test is answered true exactly for an entry with weight, under no cooldown that still
      runs, and with a last active verdict that is good where verdicts are required. */
  lemma ReadyAnswers(order: seq<Entry>, k: nat)
    requires Legal(order) && k < |order| && order[k].op.Ready?
    ensures order[k].answer <==>
            && order[k].op.weight > 0
            && (forall until | InForce(order, k, until) :: until <= order[k].op.now)
            && (order[k].op.activeChecks ==> LastWas(order, k, true))
  {
    hide Legal, InForce, Replay, LastWas;
    AnswerAt(order, k);
    VerdictIsLast(order, k, true);
    forall until: int ensures Replay(order[..k]).blockedUntil == Some(until) <==> InForce(order, k, until) {
      CooldownIsInForce(order, k, until);
    }
  }

  /** The readiness test made by a scan answers as a call that takes the lock would, leaves the same
      record, and lowers the instant at which the selection lapses only to the end of that cooldown. */
  lemma ScanTestIsReady(checked: bool, slot: SelectionCache.Slot, cell: Cell, now: int, expires: Option<int>)
    requires Sound(cell)
    ensures var (ok, after, expires') := SelectionCache.Test(checked, slot, cell, now, expires);
            && (after.health, ok) == Whole(cell.health, Ready(now, checked, slot.weight))
            && var running := slot.weight > 0 && cell.health.blockedUntil.Some? && now < cell.health.blockedUntil.value;
               if running && (expires.None? || cell.health.blockedUntil.value < expires.value)
               then expires' == cell.health.blockedUntil else expires' == expires
  {
  }

  /** An entry is eligible exactly when such a call would accept it. */
  lemma EligibleIsReady(checked: bool, slot: SelectionCache.Slot, h: Health, now: int)
    ensures SelectionCache.Eligible(checked, slot, h, now) == Whole(h, Ready(now, checked, slot.weight)).1
  {
  }
}
