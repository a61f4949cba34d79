/** The message handler's decision loop: rule hashes outer, candidate hashes
    inner, stop at the first pair within the similarity threshold. */
module Matching {
  import opened Optional
  import opened Levenshtein

  /** A (rule index, candidate index) pair. */
  datatype Pair = Pair(rule: nat, candidate: nat)

  /** The first candidate from `from` on that is within the threshold of `rule`. */
  function FirstCandidate(rule: string, candidates: seq<string>, similarity: int, from: nat): (j: Option<nat>)
    requires from <= |candidates|
    ensures j.None? ==> forall k :: from <= k < |candidates| ==> !Within(rule, candidates[k], similarity)
    ensures j.Some? ==> from <= j.value < |candidates| && Within(rule, candidates[j.value], similarity)
    ensures j.Some? ==> forall k :: from <= k < j.value ==> !Within(rule, candidates[k], similarity)
    decreases |candidates| - from
  {
    if from == |candidates| then None
    else if Within(rule, candidates[from], similarity) then Some(from)
    else FirstCandidate(rule, candidates, similarity, from + 1)
  }

  /** The first pair, rules from `from` on in rule-major order, whose distance
      is at most `similarity`. */
  function FirstMatch(rules: seq<string>, candidates: seq<string>, similarity: int, from: nat): (p: Option<Pair>)
    requires from <= |rules|
    ensures p.None? <==> forall i, j :: from <= i < |rules| && 0 <= j < |candidates| ==> !Within(rules[i], candidates[j], similarity)
    ensures p.Some? ==> from <= p.value.rule < |rules| && p.value.candidate < |candidates|
    ensures p.Some? ==> Within(rules[p.value.rule], candidates[p.value.candidate], similarity)
    ensures p.Some? ==> forall i, j :: from <= i < p.value.rule && 0 <= j < |candidates| ==> !Within(rules[i], candidates[j], similarity)
    ensures p.Some? ==> forall j :: 0 <= j < p.value.candidate ==> !Within(rules[p.value.rule], candidates[j], similarity)
    decreases |rules| - from
  {
    if from == |rules| then None
    else match FirstCandidate(rules[from], candidates, similarity, 0)
      case Some(j) => Some(Pair(from, j))
      case None =>
        var rest := FirstMatch(rules, candidates, similarity, from + 1);
        assert forall j :: 0 <= j < |candidates| ==> !Within(rules[from], candidates[j], similarity);
        rest
  }

  /** The nested `for` loops of the handler: compute `leven(rule, candidate)`
      pair by pair and return at the first one within the threshold. */
  method FindFirstMatch(rules: seq<string>, candidates: seq<string>, similarity: int) returns (found: Option<Pair>)
    ensures found == FirstMatch(rules, candidates, similarity, 0)
  {
    var i := 0;
    while i < |rules|
      invariant 0 <= i <= |rules|
      invariant FirstMatch(rules, candidates, similarity, 0) == FirstMatch(rules, candidates, similarity, i)
    {
      var j := 0;
      while j < |candidates|
        invariant 0 <= j <= |candidates|
        invariant FirstCandidate(rules[i], candidates, similarity, 0) == FirstCandidate(rules[i], candidates, similarity, j)
      {
        var distance := Distance(rules[i], candidates[j]);
        if distance <= similarity {
          return Some(Pair(i, j));
        }
        j := j + 1;
      }
      i := i + 1;
    }
    return None;
  }

  /** Whether a message is deleted: some pair is within the threshold, in
      both directions. */
  lemma MatchIffSomePairWithin(rules: seq<string>, candidates: seq<string>, similarity: int)
    ensures FirstMatch(rules, candidates, similarity, 0).Some?
            <==> exists i, j :: 0 <= i < |rules| && 0 <= j < |candidates| && Within(rules[i], candidates[j], similarity)
  {
  }

  /** A candidate identical to some rule always stops the loop, at that rule or
      at an earlier pair. */
  lemma IdenticalPairMatches(rules: seq<string>, candidates: seq<string>, similarity: int, i: nat, j: nat)
    requires i < |rules| && j < |candidates| && rules[i] == candidates[j]
    requires similarity >= 0
    ensures FirstMatch(rules, candidates, similarity, 0).Some?
    ensures FirstMatch(rules, candidates, similarity, 0).value.rule <= i
  {
    IdenticalIsWithin(rules[i], similarity);
  }
}
