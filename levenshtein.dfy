/** Levenshtein distance, as computed by the `leven` library on two perceptual
    hash strings, and the plugin's inclusive similarity test. */
module Levenshtein {

  function Max(x: int, y: int): int { if x < y then y else x }

  function Min3(x: nat, y: nat, z: nat): nat
  {
    if x <= y && x <= z then x else if y <= z then y else z
  }

  /** The least number of single-character insertions, deletions and
      substitutions that turn `a` into `b`. */
  function Distance(a: string, b: string): (d: nat)
    ensures d <= Max(|a|, |b|)
    ensures |a| - |b| <= d && |b| - |a| <= d
    decreases |a| + |b|
  {
    if |a| == 0 then |b|
    else if |b| == 0 then |a|
    else if a[0] == b[0] then Distance(a[1..], b[1..])
    else 1 + Min3(Distance(a[1..], b), Distance(a, b[1..]), Distance(a[1..], b[1..]))
  }

  /** The plugin's test at the heart of the message handler: a candidate is
      similar to a rule when their distance is at most `similarity`. */
  predicate Within(rule: string, candidate: string, similarity: int)
  {
    Distance(rule, candidate) <= similarity
  }

  /** What the threshold test means for the lengths: a negative threshold
      admits nothing, hashes whose lengths differ by more than the threshold
      are never within it, and hashes no longer than the threshold always are. */
  lemma WithinBounds(rule: string, candidate: string, similarity: int)
    ensures Within(rule, candidate, similarity) ==> similarity >= 0
    ensures Within(rule, candidate, similarity) ==> |rule| - |candidate| <= similarity && |candidate| - |rule| <= similarity
    ensures Max(|rule|, |candidate|) <= similarity ==> Within(rule, candidate, similarity)
  {
  }

  /** Distance zero means the strings are equal, and only then. */
  lemma {:induction false} DistanceZeroIffEqual(a: string, b: string)
    ensures Distance(a, b) == 0 <==> a == b
    decreases |a|
  {
    if |a| > 0 && |b| > 0 && a[0] == b[0] {
      DistanceZeroIffEqual(a[1..], b[1..]);
      assert a == [a[0]] + a[1..] && b == [b[0]] + b[1..];
    }
  }

  /** Because the test is inclusive, an identical hash is similar under every
      admissible threshold (the configuration allows 0 to 14). */
  lemma IdenticalIsWithin(h: string, similarity: int)
    requires similarity >= 0
    ensures Within(h, h, similarity)
  {
    DistanceZeroIffEqual(h, h);
  }

  /** The distance does not depend on which string is the rule. */
  lemma {:induction false} DistanceSymmetric(a: string, b: string)
    ensures Distance(a, b) == Distance(b, a)
    decreases |a| + |b|
  {
    if |a| > 0 && |b| > 0 {
      DistanceSymmetric(a[1..], b[1..]);
      if a[0] != b[0] {
        DistanceSymmetric(a[1..], b);
        DistanceSymmetric(a, b[1..]);
      }
    }
  }

  /** Positions at which two equal-length hashes differ. */
  function Hamming(a: string, b: string): (h: nat)
    requires |a| == |b|
    ensures h <= |a|
  {
    if a == [] then 0
    else (if a[0] == b[0] then 0 else 1) + Hamming(a[1..], b[1..])
  }

  /** For fixed-length hashes, substituting the differing positions is always
      an edit script, so the distance is at most the Hamming distance. */
  lemma {:induction false} DistanceAtMostHamming(a: string, b: string)
    requires |a| == |b|
    ensures Distance(a, b) <= Hamming(a, b)
  {
    if a != [] {
      DistanceAtMostHamming(a[1..], b[1..]);
    }
  }

  /** Hashes that share no character are as far apart as the longer one is long. */
  lemma {:induction false} DistanceOfDisjoint(a: string, b: string)
    requires forall i, j :: 0 <= i < |a| && 0 <= j < |b| ==> a[i] != b[j]
    ensures Distance(a, b) == Max(|a|, |b|)
    decreases |a| + |b|
  {
    if |a| > 0 && |b| > 0 {
      assert a[0] != b[0];
      DistanceOfDisjoint(a[1..], b);
      DistanceOfDisjoint(a, b[1..]);
      DistanceOfDisjoint(a[1..], b[1..]);
    }
  }

  /** Two fingerprints one substitution apart, and two with nothing in common,
      against a threshold of 2. */
  lemma ThresholdExamples()
    ensures Within("abc123", "abc133", 2)
    ensures Distance("abc123", "abc133") == 1
    ensures Distance("abc123", "xyz999") == 6
    ensures !Within("abc123", "xyz999", 2)
  {
    DistanceOfDisjoint("abc123", "xyz999");
  }
}
