/** Bounded logs: drop the oldest entry until the rest is acceptable.
    The rollout sample window and the durable journal are both such logs. */
module Suffixes {

  /** The suffix that remains when entries are dropped from the front one at a time. */
  ghost function LongestFit<T>(fits: seq<T> -> bool, s: seq<T>): (r: seq<T>)
    ensures |r| <= |s| && r == s[|s| - |r|..]
    ensures r == [] || fits(r)
    decreases |s|
  {
    if s == [] || fits(s) then s else LongestFit(fits, s[1..])
  }

  /** No longer suffix is acceptable: dropping one at a time computes one global cut. */
  lemma {:induction false} LongestFitIsLongest<T>(fits: seq<T> -> bool, s: seq<T>, k: nat)
    requires k <= |s| && fits(s[k..])
    ensures |s| - k <= |LongestFit(fits, s)|
    decreases |s|
  {
    if s != [] && !fits(s) {
      assert s[0..] == s;
      assert s[1..][k - 1..] == s[k..];
      LongestFitIsLongest(fits, s[1..], k - 1);
    }
  }

  /** Cutting early and then again after growth equals cutting the whole log once, provided
      the later condition rejects every suffix the earlier one rejected. */
  lemma {:induction false} Absorb<T>(early: seq<T> -> bool, late: seq<T> -> bool, s: seq<T>, tail: seq<T>)
    requires forall k :: 0 <= k < |s| && late(s[k..] + tail) ==> early(s[k..])
    ensures LongestFit(late, LongestFit(early, s) + tail) == LongestFit(late, s + tail)
    decreases |s|
  {
    if s != [] && !early(s) {
      assert s[0..] == s;
      assert (s + tail)[1..] == s[1..] + tail;
      forall k | 0 <= k < |s[1..]| && late(s[1..][k..] + tail) ensures early(s[1..][k..]) {
        assert s[1..][k..] == s[k + 1..];
      }
      Absorb(early, late, s[1..], tail);
    }
  }
}
