/** Which target a slot number selects: weighted round robin and stable cohorts. */
module RolloutSelection {
  import opened Counting
  import opened RolloutPolicy

  const BUCKETS: nat := 10000

  /** Slot n falls inside the i-th target's run of slots. */
  predicate Owns(ws: seq<Target>, i: int, n: int) {
    0 <= i < |ws| && Prefix(ws, i) <= n < Prefix(ws, i + 1)
  }

  /** The target of a slot, found from the last target down. */
  ghost function Pick(ws: seq<Target>, n: nat): (i: nat)
    requires n < Total(ws)
    ensures Owns(ws, i, n)
  {
    PickBelow(ws, n, |ws|)
  }

  ghost function PickBelow(ws: seq<Target>, n: nat, bound: nat): (i: nat)
    requires bound <= |ws| && n < Prefix(ws, bound)
    ensures Owns(ws, i, n)
    decreases bound
  {
    if Prefix(ws, bound - 1) <= n then bound - 1 else PickBelow(ws, n, bound - 1)
  }

  /** No slot has two owners. */
  lemma OwnerUnique(ws: seq<Target>, i: nat, j: nat, n: nat)
    requires Owns(ws, i, n) && Owns(ws, j, n)
    ensures i == j
  {
    if i < j {
      PrefixMonotone(ws, i + 1, j);
    } else if j < i {
      PrefixMonotone(ws, j + 1, i);
    }
  }

  /** The slot of a cohort hash h: h * total / 10000. */
  function CohortSlot(h: nat, total: nat): (n: nat)
    ensures h < BUCKETS && total > 0 ==> n < total
  {
    SlotInRange(h, total);
    h * total / BUCKETS
  }

  lemma SlotInRange(h: nat, total: nat)
    ensures h < BUCKETS && total > 0 ==> h * total / BUCKETS < total
  {
    if h < BUCKETS && total > 0 {
      assert h * total < BUCKETS * total;
    }
  }

  lemma PickIsPrefix(ws: seq<Target>, n: nat, j: nat)
    requires n < Total(ws) && j <= |ws|
    ensures Pick(ws, n) < j <==> n < Prefix(ws, j)
  {
    var i := Pick(ws, n);
    if i < j {
      PrefixMonotone(ws, i + 1, j);
    } else {
      PrefixMonotone(ws, j, i);
    }
  }

  /** A cohort lands among the first j targets exactly when h * total < 10000 * (their weight). */
  lemma CohortPrefix(ws: seq<Target>, h: nat, j: nat)
    requires h < BUCKETS && Total(ws) > 0 && j <= |ws|
    ensures Pick(ws, CohortSlot(h, Total(ws))) < j <==> h * Total(ws) < BUCKETS * Prefix(ws, j)
  {
    PickIsPrefix(ws, CohortSlot(h, Total(ws)), j);
  }

  /** A stage that does not lower the share of the first j targets moves no client out of them,
      whatever the two totals are. */
  lemma StageChangeKeepsCohort(before: seq<Target>, after: seq<Target>, h: nat, j: nat)
    requires h < BUCKETS && j <= |before| && j <= |after|
    requires Total(before) > 0 && Total(after) > 0
    requires Prefix(before, j) * Total(after) <= Prefix(after, j) * Total(before)
    requires Pick(before, CohortSlot(h, Total(before))) < j
    ensures Pick(after, CohortSlot(h, Total(after))) < j
  {
    var t, t', p, p' := Total(before), Total(after), Prefix(before, j), Prefix(after, j);
    CohortPrefix(before, h, j);
    CohortPrefix(after, h, j);
    CrossMultiply(h, t, t', p, p');
  }

  lemma CrossMultiply(h: nat, t: nat, t': nat, p: nat, p': nat)
    requires t > 0 && t' > 0 && h * t < BUCKETS * p && p * t' <= p' * t
    ensures h * t' < BUCKETS * p'
  {
    MulStrict(h * t, BUCKETS * p, t');
    calc {
      (h * t') * t;
      (h * t) * t';
    <
      (BUCKETS * p) * t';
      BUCKETS * (p * t');
    <=
      BUCKETS * (p' * t);
      (BUCKETS * p') * t;
    }
    Cancel(h * t', BUCKETS * p', t);
  }

  lemma Cancel(a: int, b: int, c: nat)
    requires a * c < b * c
    ensures a < b
  {
    if b <= a {
      MulMonotone(b, a, c);
    }
  }

  lemma MulMonotone(a: int, b: int, c: nat)
    requires a <= b
    ensures a * c <= b * c
  {
  }

  lemma MulStrict(a: int, b: int, c: nat)
    requires a < b && c > 0
    ensures a * c < b * c
  {
  }

  /** The cohort hashes of target i. */
  function InCohort(ws: seq<Target>, i: nat): int -> bool {
    h => h >= 0 && Owns(ws, i, CohortSlot(h, Total(ws)))
  }

  function CeilDiv(a: nat, b: nat): (q: nat)
    requires b > 0
    ensures a <= q * b < a + b
  {
    DivBounds(a + b - 1, b);
    (a + b - 1) / b
  }

  lemma CeilDivLeast(a: nat, b: nat, h: nat)
    requires b > 0
    ensures h * b >= a <==> h >= CeilDiv(a, b)
  {
    var q := CeilDiv(a, b);
    if h >= q {
      MulMonotone(q, h, b);
    } else {
      MulMonotone(h, q - 1, b);
      assert (q - 1) * b == q * b - b;
    }
  }

  lemma DivBounds(a: nat, b: nat)
    requires b > 0
    ensures (a / b) * b <= a < (a / b) * b + b
  {
    assert a == b * (a / b) + a % b;
    assert b * (a / b) == (a / b) * b;
  }

  /** The hashes h with lo <= h * total < hi are an interval. */
  lemma CohortInterval(ws: seq<Target>, i: nat, h: nat, a: nat, b: nat)
    requires i < |ws| && Total(ws) > 0
    requires a == CeilDiv(BUCKETS * Prefix(ws, i), Total(ws))
    requires b == CeilDiv(BUCKETS * Prefix(ws, i + 1), Total(ws))
    ensures InCohort(ws, i)(h) <==> a <= h < b
  {
    var total := Total(ws);
    var lo, hi := Prefix(ws, i), Prefix(ws, i + 1);
    var n := h * total;
    CeilDivLeast(BUCKETS * lo, total, h);
    CeilDivLeast(BUCKETS * hi, total, h);
    assert n / BUCKETS >= lo <==> n >= BUCKETS * lo;
    assert n / BUCKETS >= hi <==> n >= BUCKETS * hi;
    assert CohortSlot(h, total) == n / BUCKETS;
  }

  lemma CohortCount(ws: seq<Target>, i: nat, a: nat, b: nat)
    requires i < |ws| && Total(ws) > 0 && a <= b <= BUCKETS
    requires a == CeilDiv(BUCKETS * Prefix(ws, i), Total(ws))
    requires b == CeilDiv(BUCKETS * Prefix(ws, i + 1), Total(ws))
    ensures CountRange(InCohort(ws, i), 0, BUCKETS) == b - a
  {
    forall h | 0 <= h < BUCKETS ensures InCohort(ws, i)(h) <==> a <= h < b {
      CohortInterval(ws, i, h, a, b);
    }
    CountInterval(InCohort(ws, i), 0, a, b, BUCKETS);
  }

  lemma ShareBounds(total: nat, lo: nat, hi: nat, a: nat, b: nat, owned: nat)
    requires 0 < total && lo <= hi <= total
    requires a == CeilDiv(BUCKETS * lo, total) && b == CeilDiv(BUCKETS * hi, total)
    requires a + owned == b
    ensures BUCKETS * (hi - lo) - total < owned * total < BUCKETS * (hi - lo) + total
  {
    assert owned == b - a;
    assert owned * total == b * total - a * total;
  }

  lemma CohortOrder(total: nat, lo: nat, hi: nat, a: nat, b: nat)
    requires 0 < total && lo <= hi <= total
    requires a == CeilDiv(BUCKETS * lo, total) && b == CeilDiv(BUCKETS * hi, total)
    ensures a <= b <= BUCKETS
  {
    MulMonotone(lo, hi, BUCKETS);
    CeilDivLeast(BUCKETS * lo, total, b);
    CeilDivLeast(BUCKETS * hi, total, BUCKETS);
  }

  /** Each target owns within one of 10000 * weight / total of the 10000 cohort buckets. */
  lemma CohortShare(ws: seq<Target>, i: nat)
    requires i < |ws| && Total(ws) > 0
    ensures var owned, total := CountRange(InCohort(ws, i), 0, BUCKETS), Total(ws);
            BUCKETS * ws[i].weight - total < owned * total < BUCKETS * ws[i].weight + total
  {
    var total, lo, hi := Total(ws), Prefix(ws, i), Prefix(ws, i + 1);
    PrefixMonotone(ws, i, i + 1);
    PrefixMonotone(ws, i + 1, |ws|);
    assert hi - lo == ws[i].weight;
    hide Prefix, InCohort, CountRange;
    var a := CeilDiv(BUCKETS * lo, total);
    var b := CeilDiv(BUCKETS * hi, total);
    CohortOrder(total, lo, hi, a, b);
    CohortCount(ws, i, a, b);
    ShareBounds(total, lo, hi, a, b, CountRange(InCohort(ws, i), 0, BUCKETS));
  }

  /** The cursor values that reach target i. */
  function OnTurn(ws: seq<Target>, i: nat): int -> bool {
    cursor => Total(ws) > 0 && Owns(ws, i, cursor % Total(ws))
  }

  lemma TurnPeriod(ws: seq<Target>, i: nat, x: int)
    ensures OnTurn(ws, i)(x) == OnTurn(ws, i)(x + Total(ws))
  {
    if Total(ws) > 0 {
      ModPeriod(x, Total(ws));
    }
  }

  lemma FirstTurn(ws: seq<Target>, i: nat, x: nat)
    requires i < |ws| && x < Total(ws)
    ensures OnTurn(ws, i)(x) <==> Prefix(ws, i) <= x < Prefix(ws, i + 1)
  {
    ModUnique(x, Total(ws), 0, x);
  }

  /** Any `total` consecutive cursor values reach each target exactly `weight` times. */
  lemma RoundRobinExact(ws: seq<Target>, i: nat, start: nat)
    requires i < |ws| && Total(ws) > 0
    ensures CountRange(OnTurn(ws, i), start, start + Total(ws)) == ws[i].weight
  {
    PrefixMonotone(ws, i, i + 1);
    PrefixMonotone(ws, i + 1, |ws|);
    forall x: int ensures OnTurn(ws, i)(x) == OnTurn(ws, i)(x + Total(ws)) {
      TurnPeriod(ws, i, x);
    }
    CountPeriodic(OnTurn(ws, i), Total(ws), start);
    forall x | 0 <= x < Total(ws)
      ensures OnTurn(ws, i)(x) <==> Prefix(ws, i) <= x < Prefix(ws, i + 1)
    {
      FirstTurn(ws, i, x);
    }
    CountInterval(OnTurn(ws, i), 0, Prefix(ws, i), Prefix(ws, i + 1), Total(ws));
  }

  lemma ModPeriod(x: int, m: nat)
    requires m > 0
    ensures (x + m) % m == x % m
  {
    var q, r := x / m, x % m;
    assert x + m == m * (q + 1) + r;
    ModUnique(x + m, m, q + 1, r);
  }

  lemma ModUnique(a: int, m: nat, q: int, r: nat)
    requires m > 0 && a == m * q + r && r < m
    ensures a % m == r
  {
    var d := a / m - q;
    assert a == m * (a / m) + a % m;
    assert m * d == r - a % m by { assert m * (a / m) - m * q == m * d; }
    if d > 0 {
      MulMonotone(1, d, m);
      assert false;
    } else if d < 0 {
      MulMonotone(d, -1, m);
      assert false;
    }
  }
}
