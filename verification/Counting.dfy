/** How many entries of a sequence, or numbers of a range, satisfy a predicate. */
module Counting {

  function Count<T>(p: T -> bool, s: seq<T>): (n: nat)
    ensures n <= |s|
  {
    if s == [] then 0 else (if p(s[0]) then 1 else 0) + Count(p, s[1..])
  }

  lemma {:induction false} CountConcat<T>(p: T -> bool, a: seq<T>, b: seq<T>)
    ensures Count(p, a + b) == Count(p, a) + Count(p, b)
    decreases |a|
  {
    if a == [] {
      assert a + b == b;
    } else {
      assert (a + b)[1..] == a[1..] + b;
      CountConcat(p, a[1..], b);
    }
  }

  lemma {:induction false} CountWithout<T>(p: T -> bool, s: seq<T>, k: nat)
    requires k < |s|
    ensures Count(p, s) == Count(p, s[..k] + s[k + 1..]) + (if p(s[k]) then 1 else 0)
    decreases k
  {
    var rest := s[..k] + s[k + 1..];
    if k == 0 {
      assert rest == s[1..];
    } else {
      assert rest[1..] == s[1..][..k - 1] + s[1..][k..];
      CountWithout(p, s[1..], k - 1);
    }
  }

  lemma MultisetWithout<T>(s: seq<T>, k: nat)
    requires k < |s|
    ensures multiset(s[..k] + s[k + 1..]) == multiset(s) - multiset{s[k]}
  {
    assert s == s[..k] + [s[k]] + s[k + 1..];
  }

  /** Counts depend on the multiset only, not on the order. */
  lemma {:induction false} CountPermutation<T>(p: T -> bool, a: seq<T>, b: seq<T>)
    requires multiset(a) == multiset(b)
    ensures Count(p, a) == Count(p, b)
    decreases |a|
  {
    hide Count;
    if a == [] {
      NoEntries(b);
    } else {
      var k := Position(a[0], b);
      var a', b' := a[..0] + a[1..], b[..k] + b[k + 1..];
      MultisetWithout(a, 0);
      MultisetWithout(b, k);
      CountPermutation(p, a', b');
      CountWithout(p, a, 0);
      CountWithout(p, b, k);
    }
  }

  lemma NoEntries<T>(s: seq<T>)
    requires multiset(s) == multiset{}
    ensures s == []
  {
    assert |multiset(s)| == |s|;
  }

  lemma Position<T>(x: T, s: seq<T>) returns (k: nat)
    requires x in multiset(s)
    ensures k < |s| && s[k] == x
  {
    k :| 0 <= k < |s| && s[k] == x;
  }

  lemma {:induction false} CountAll<T>(p: T -> bool, s: seq<T>)
    requires forall x | x in s :: p(x)
    ensures Count(p, s) == |s|
  {
    if s != [] {
      CountAll(p, s[1..]);
    }
  }

  lemma {:induction false} CountNone<T>(p: T -> bool, s: seq<T>)
    requires forall x | x in s :: !p(x)
    ensures Count(p, s) == 0
  {
    if s != [] {
      CountNone(p, s[1..]);
    }
  }

  /** How many of lo, lo + 1, ..., hi - 1 satisfy p. */
  function CountRange(p: int -> bool, lo: int, hi: int): (n: nat)
    decreases hi - lo
  {
    if lo >= hi then 0 else (if p(hi - 1) then 1 else 0) + CountRange(p, lo, hi - 1)
  }

  lemma {:induction false} CountRangeSplit(p: int -> bool, lo: int, mid: int, hi: int)
    requires lo <= mid <= hi
    ensures CountRange(p, lo, hi) == CountRange(p, lo, mid) + CountRange(p, mid, hi)
    decreases hi - mid
  {
    if mid < hi {
      CountRangeSplit(p, lo, mid, hi - 1);
    }
  }

  lemma {:induction false} CountRangeUniform(p: int -> bool, lo: int, hi: int, value: bool)
    requires lo <= hi
    requires forall x | lo <= x < hi :: p(x) == value
    ensures CountRange(p, lo, hi) == if value then hi - lo else 0
    decreases hi - lo
  {
    if lo < hi {
      CountRangeUniform(p, lo, hi - 1, value);
    }
  }

  /** Exactly the numbers of [a, b) inside [lo, hi) satisfy p. */
  lemma CountInterval(p: int -> bool, lo: int, a: int, b: int, hi: int)
    requires lo <= a <= b <= hi
    requires forall x | lo <= x < hi :: p(x) <==> a <= x < b
    ensures CountRange(p, lo, hi) == b - a
  {
    CountRangeSplit(p, lo, a, hi);
    CountRangeSplit(p, a, b, hi);
    CountRangeUniform(p, lo, a, false);
    CountRangeUniform(p, a, b, true);
    CountRangeUniform(p, b, hi, false);
  }

  lemma {:induction false} CountRangeEqual(p: int -> bool, q: int -> bool, lo: int, hi: int)
    requires forall x | lo <= x < hi :: p(x) == q(x)
    ensures CountRange(p, lo, hi) == CountRange(q, lo, hi)
    decreases hi - lo
  {
    if lo < hi {
      CountRangeEqual(p, q, lo, hi - 1);
    }
  }

  /** A predicate with period T is satisfied equally often in every window of T numbers. */
  lemma {:induction false} CountPeriodic(p: int -> bool, period: nat, start: nat)
    requires forall x :: p(x) == p(x + period)
    ensures CountRange(p, start, start + period) == CountRange(p, 0, period)
    decreases start
  {
    if start > 0 {
      CountPeriodic(p, period, start - 1);
      if period > 0 {
        CountRangeSplit(p, start - 1, start, start - 1 + period);
        assert CountRange(p, start - 1, start - 1) == 0;
        assert CountRange(p, start, start + period)
            == (if p(start + period - 1) then 1 else 0) + CountRange(p, start, start + period - 1);
        assert p(start - 1) == p(start - 1 + period);
      }
    }
  }
}
