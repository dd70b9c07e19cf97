/**
 * The Levenshtein edit distance that `fastest-levenshtein`'s `distance`
 * computes: the least number of single-character insertions, deletions and
 * substitutions that turn one string into the other.
 */
module Levenshtein {

  function Min3(x: nat, y: nat, z: nat): nat {
    if x <= y && x <= z then x else if y <= z then y else z
  }

  function Max(x: nat, y: nat): nat {
    if x >= y then x else y
  }

  /** The edit distance, by the recurrence on the last characters. */
  function Distance(a: string, b: string): nat
    decreases |a| + |b|
  {
    if |a| == 0 then |b|
    else if |b| == 0 then |a|
    else
      Min3(
        Distance(a[..|a| - 1], b) + 1,
        Distance(a, b[..|b| - 1]) + 1,
        Distance(a[..|a| - 1], b[..|b| - 1]) + (if a[|a| - 1] == b[|b| - 1] then 0 else 1))
  }

  /** Never more than the longer length: substitute along the shorter
      string and insert the rest. */
  lemma {:induction false} DistanceAtMostLonger(a: string, b: string)
    ensures Distance(a, b) <= Max(|a|, |b|)
    decreases |a| + |b|
  {
    if |a| > 0 && |b| > 0 {
      DistanceAtMostLonger(a[..|a| - 1], b[..|b| - 1]);
    }
  }

  /** Never less than the difference of the lengths. */
  lemma {:induction false} DistanceAtLeastLengthGap(a: string, b: string)
    ensures Distance(a, b) >= |a| - |b| && Distance(a, b) >= |b| - |a|
    decreases |a| + |b|
  {
    if |a| > 0 && |b| > 0 {
      DistanceAtLeastLengthGap(a[..|a| - 1], b);
      DistanceAtLeastLengthGap(a, b[..|b| - 1]);
      DistanceAtLeastLengthGap(a[..|a| - 1], b[..|b| - 1]);
    }
  }

  /** A string is at distance 0 from itself ... */
  lemma {:induction false} DistanceToSelf(a: string)
    ensures Distance(a, a) == 0
    decreases |a|
  {
    if |a| > 0 {
      DistanceToSelf(a[..|a| - 1]);
    }
  }

  /** ... and from nothing else. */
  lemma {:induction false} DistanceZeroMeansEqual(a: string, b: string)
    requires Distance(a, b) == 0
    ensures a == b
    decreases |a| + |b|
  {
    if |a| > 0 && |b| > 0 {
      var a', b' := a[..|a| - 1], b[..|b| - 1];
      assert Distance(a', b') == 0 && a[|a| - 1] == b[|b| - 1];
      DistanceZeroMeansEqual(a', b');
      assert a == a' + [a[|a| - 1]] && b == b' + [b[|b| - 1]];
    }
  }

  lemma DistanceZeroIffEqual(a: string, b: string)
    ensures Distance(a, b) == 0 <==> a == b
  {
    DistanceToSelf(a);
    if Distance(a, b) == 0 {
      DistanceZeroMeansEqual(a, b);
    }
  }

  /** The distance does not depend on the order of its arguments. */
  lemma {:induction false} DistanceSymmetric(a: string, b: string)
    ensures Distance(a, b) == Distance(b, a)
    decreases |a| + |b|
  {
    if |a| > 0 && |b| > 0 {
      DistanceSymmetric(a[..|a| - 1], b);
      DistanceSymmetric(a, b[..|b| - 1]);
      DistanceSymmetric(a[..|a| - 1], b[..|b| - 1]);
    }
  }
}
