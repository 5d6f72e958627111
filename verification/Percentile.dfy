/** The nearest-rank 95th percentile, and the counting test the rollout engine uses instead of sorting. */
module Percentile {
  import opened Counting

  ghost predicate Sorted(s: seq<nat>) {
    forall i, j | 0 <= i < j < |s| :: s[i] <= s[j]
  }

  ghost function Insert(x: nat, s: seq<nat>): (r: seq<nat>)
    ensures |r| == |s| + 1
  {
    if s == [] || x <= s[0] then [x] + s else [s[0]] + Insert(x, s[1..])
  }

  ghost function SortedCopy(s: seq<nat>): (r: seq<nat>)
    ensures |r| == |s|
  {
    if s == [] then [] else Insert(s[0], SortedCopy(s[1..]))
  }

  lemma {:induction false} InsertPermutes(x: nat, s: seq<nat>)
    ensures multiset(Insert(x, s)) == multiset(s) + multiset{x}
  {
    if s != [] && x > s[0] {
      InsertPermutes(x, s[1..]);
      assert s == [s[0]] + s[1..];
    }
  }

  lemma {:induction false} InsertSorts(x: nat, s: seq<nat>)
    requires Sorted(s)
    ensures Sorted(Insert(x, s))
  {
    if s != [] && x > s[0] {
      InsertSorts(x, s[1..]);
      InsertPermutes(x, s[1..]);
      var r := Insert(x, s[1..]);
      assert Insert(x, s) == [s[0]] + r;
      hide Insert;
      forall i | 0 <= i < |r| ensures s[0] <= r[i] {
        assert r[i] in multiset(r);
        assert r[i] in multiset(s[1..]) || r[i] == x;
      }
    }
  }

  /** SortedCopy(s) is the sorted permutation of s. */
  lemma {:induction false} SortedCopySorts(s: seq<nat>)
    ensures Sorted(SortedCopy(s)) && multiset(SortedCopy(s)) == multiset(s)
  {
    if s != [] {
      assert s == [s[0]] + s[1..];
      SortedCopySorts(s[1..]);
      InsertSorts(s[0], SortedCopy(s[1..]));
      InsertPermutes(s[0], SortedCopy(s[1..]));
    }
  }

  /** Nearest rank: the smallest r with r >= 95% of n, counting from 1. */
  function Rank95(n: nat): (r: nat)
    ensures 100 * r >= 95 * n && (r > 0 ==> 100 * (r - 1) < 95 * n)
    ensures n > 0 ==> 1 <= r <= n
  {
    (95 * n + 99) / 100
  }

  ghost function P95(s: seq<nat>): nat
    requires s != []
  {
    SortedCopy(s)[Rank95(|s|) - 1]
  }

  function Above(limit: nat): nat -> bool {
    x => x > limit
  }

  /** In a sorted sequence the entries above a limit form the tail. */
  lemma SortedTail(t: seq<nat>, limit: nat, k: nat)
    requires Sorted(t) && k < |t|
    ensures t[k] > limit <==> Count(Above(limit), t) >= |t| - k
  {
    var p := Above(limit);
    assert t == t[..k] + t[k..];
    CountConcat(p, t[..k], t[k..]);
    if t[k] > limit {
      CountAll(p, t[k..]);
    } else {
      assert t[k..] == [t[k]] + t[k + 1..];
      CountConcat(p, [t[k]], t[k + 1..]);
      CountNone(p, t[..k]);
    }
  }

  /** src/rollout.rs, the comment above the latency test: for every collection of samples and
      every sorted arrangement of it, the nearest-rank p95 exceeds the limit exactly when more
      than n / 20 samples do. */
  lemma CountingDecidesP95(s: seq<nat>, t: seq<nat>, limit: nat)
    requires s != []
    requires Sorted(t) && multiset(t) == multiset(s)
    ensures |t| == |s|
    ensures t[Rank95(|s|) - 1] > limit <==> Count(Above(limit), s) > |s| / 20
  {
    assert |multiset(t)| == |multiset(s)|;
    SortedTail(t, limit, Rank95(|s|) - 1);
    CountPermutation(Above(limit), s, t);
  }
}
