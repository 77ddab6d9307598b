/**
 * The three-tier keyword scorer (`score_item` in monitor.py). All matching is
 * substring containment in the normalised text: an exclude phrase rejects,
 * then a non-empty must-have list must match at least once, then the score is
 * a baseline of 60 plus 5 per matching nice-to-have phrase and 5 per matching
 * built-in bonus term, capped at 100.
 */
module Scoring {
  import opened Text

  /** The `keywords` section of the configuration; a missing list is the empty list. */
  datatype Policy = Policy(excludeAny: seq<string>, mustHaveAny: seq<string>, niceToHaveAny: seq<string>)

  /** The pair `(keep, score)` that `score_item` returns. */
  datatype Verdict = Verdict(keep: bool, score: int)

  const Baseline: int := 60
  const PointsPerHit: int := 5
  const MaxScore: int := 100

  /** The procurement words that earn a bonus; they are matched as written, not normalised. */
  const BonusTerms: seq<string> :=
    ["rfp", "tender", "eoi", "expression of interest", "procurement", "bid", "request for proposal"]

  /** Each phrase normalised, in order. */
  function NormalizeAll(phrases: seq<string>): seq<string> {
    seq(|phrases|, i requires 0 <= i < |phrases| => Normalize(phrases[i]))
  }

  /** `any(p in t for p in phrases)`. */
  predicate AnyIn(phrases: seq<string>, t: string) {
    phrases != [] && (Contains(t, phrases[0]) || AnyIn(phrases[1..], t))
  }

  /** `sum(1 for p in phrases if p in t)`: every list entry that occurs counts once, so a
      phrase listed twice counts twice. */
  function Hits(phrases: seq<string>, t: string): (n: nat)
    ensures n <= |phrases|
  {
    if phrases == [] then 0
    else Hits(phrases[..|phrases| - 1], t) + (if Contains(t, phrases[|phrases| - 1]) then 1 else 0)
  }

  /** `score_item(text, cfg)`. */
  function Score(text: string, policy: Policy): (v: Verdict)
    ensures !v.keep ==> v.score == 0
    ensures v.keep ==> Baseline <= v.score <= MaxScore
  {
    Judge(Normalize(text), policy)
  }

  /** The body of `score_item` once the text `t` has been normalised. */
  function Judge(t: string, policy: Policy): (v: Verdict)
    ensures !v.keep ==> v.score == 0
    ensures v.keep ==> Baseline <= v.score <= MaxScore
  {
    if AnyIn(NormalizeAll(policy.excludeAny), t) then Verdict(false, 0)
    else if policy.mustHaveAny != [] && !AnyIn(NormalizeAll(policy.mustHaveAny), t) then Verdict(false, 0)
    else Verdict(true, Points(Hits(NormalizeAll(policy.niceToHaveAny), t), Hits(BonusTerms, t)))
  }

  /** `min(60 + 5 * niceHits + 5 * bonusHits, 100)`. */
  function Points(niceHits: nat, bonusHits: nat): (p: int)
    ensures Baseline <= p <= MaxScore
  {
    var score := Baseline + PointsPerHit * niceHits + PointsPerHit * bonusHits;
    if score < MaxScore then score else MaxScore
  }

  /** `AnyIn` is "some phrase occurs". */
  lemma {:induction false} AnyInIff(phrases: seq<string>, t: string)
    ensures AnyIn(phrases, t) <==> exists i :: 0 <= i < |phrases| && Contains(t, phrases[i])
  {
    if phrases != [] {
      AnyInIff(phrases[1..], t);
      if i :| 0 <= i < |phrases| && Contains(t, phrases[i]) {
        if i > 0 {
          assert phrases[1..][i - 1] == phrases[i];
        }
      }
      if i :| 0 <= i < |phrases[1..]| && Contains(t, phrases[1..][i]) {
        assert phrases[i + 1] == phrases[1..][i];
      }
    }
  }

  /** The indices of the phrases that occur in `t`. */
  function HitIndices(phrases: seq<string>, t: string): set<int> {
    set i | 0 <= i < |phrases| && Contains(t, phrases[i])
  }

  /** `Hits` is the number of list entries that occur in `t`. */
  lemma {:induction false} HitsCountsMatches(phrases: seq<string>, t: string)
    ensures Hits(phrases, t) == |HitIndices(phrases, t)|
  {
    if phrases == [] {
      assert HitIndices(phrases, t) == {};
    } else {
      var n := |phrases|;
      var prefix := phrases[..n - 1];
      HitsCountsMatches(prefix, t);
      if Contains(t, phrases[n - 1]) {
        assert HitIndices(phrases, t) == HitIndices(prefix, t) + {n - 1};
      } else {
        assert HitIndices(phrases, t) == HitIndices(prefix, t);
      }
    }
  }

  /** Exclusion dominates: if any normalised exclude phrase occurs in the normalised
      text, the entry is dropped with score 0 whatever the other two lists hold. */
  lemma ExclusionDominates(text: string, policy: Policy)
    requires exists i :: 0 <= i < |policy.excludeAny| && Contains(Normalize(text), Normalize(policy.excludeAny[i]))
    ensures Score(text, policy) == Verdict(false, 0)
  {
    AnyNormalizedIff(policy.excludeAny, Normalize(text));
  }

  /** The must-have gate: a non-empty must-have list none of whose normalised phrases
      occurs drops the entry with score 0. */
  lemma MustHaveGate(text: string, policy: Policy)
    requires policy.mustHaveAny != []
    requires forall i :: 0 <= i < |policy.mustHaveAny| ==> !Contains(Normalize(text), Normalize(policy.mustHaveAny[i]))
    ensures Score(text, policy) == Verdict(false, 0)
  {
    AnyNormalizedIff(policy.mustHaveAny, Normalize(text));
  }

  /** `any(normalize_text(p) in t for p in phrases)` is "some normalised phrase occurs". */
  lemma AnyNormalizedIff(phrases: seq<string>, t: string)
    ensures AnyIn(NormalizeAll(phrases), t) <==> exists i :: 0 <= i < |phrases| && Contains(t, Normalize(phrases[i]))
  {
    var ns := NormalizeAll(phrases);
    AnyInIff(ns, t);
    if i :| 0 <= i < |phrases| && Contains(t, Normalize(phrases[i])) {
      assert Contains(t, ns[i]);
    }
  }

  lemma JudgeKeepIff(t: string, policy: Policy)
    ensures Judge(t, policy).keep <==>
              (forall i :: 0 <= i < |policy.excludeAny| ==> !Contains(t, Normalize(policy.excludeAny[i])))
              && (policy.mustHaveAny == []
                  || exists i :: 0 <= i < |policy.mustHaveAny| && Contains(t, Normalize(policy.mustHaveAny[i])))
  {
    AnyNormalizedIff(policy.excludeAny, t);
    AnyNormalizedIff(policy.mustHaveAny, t);
  }

  lemma JudgeKeptScore(t: string, policy: Policy)
    ensures Judge(t, policy).keep ==>
              Judge(t, policy).score
              == Points(|HitIndices(NormalizeAll(policy.niceToHaveAny), t)|, |HitIndices(BonusTerms, t)|)
  {
    HitsCountsMatches(NormalizeAll(policy.niceToHaveAny), t);
    HitsCountsMatches(BonusTerms, t);
  }

  /** An entry is kept exactly when no exclude phrase occurs and the must-have list
      is empty or one of its phrases occurs; a kept entry scores 60, plus 5 for each
      nice-to-have entry and each bonus term that occurs, capped at 100. */
  lemma ScoreSpec(text: string, policy: Policy)
    ensures var t := Normalize(text);
            Score(text, policy).keep <==>
              (forall i :: 0 <= i < |policy.excludeAny| ==> !Contains(t, Normalize(policy.excludeAny[i])))
              && (policy.mustHaveAny == []
                  || exists i :: 0 <= i < |policy.mustHaveAny| && Contains(t, Normalize(policy.mustHaveAny[i])))
    ensures var t := Normalize(text);
            Score(text, policy).keep ==>
              Score(text, policy).score
              == Points(|HitIndices(NormalizeAll(policy.niceToHaveAny), t)|, |HitIndices(BonusTerms, t)|)
  {
    JudgeKeepIff(Normalize(text), policy);
    JudgeKeptScore(Normalize(text), policy);
  }

  /** The score depends on the text only through its normal form. */
  lemma ScoreIgnoresCaseAndSpacing(text: string, policy: Policy)
    ensures Score(Normalize(text), policy) == Score(text, policy)
  {
    NormalizeIdempotent(text);
  }

  lemma JudgeMoreNice(t: string, policy: Policy, phrase: string)
    ensures var more := policy.(niceToHaveAny := policy.niceToHaveAny + [phrase]);
            Judge(t, more).keep == Judge(t, policy).keep
            && Judge(t, more).score >= Judge(t, policy).score
  {
    var more := NormalizeAll(policy.niceToHaveAny + [phrase]);
    assert more[..|more| - 1] == NormalizeAll(policy.niceToHaveAny);
  }

  /** Adding a nice-to-have phrase never lowers the score and never changes the verdict. */
  lemma MoreNiceNeverLowers(text: string, policy: Policy, phrase: string)
    ensures var more := policy.(niceToHaveAny := policy.niceToHaveAny + [phrase]);
            Score(text, more).keep == Score(text, policy).keep
            && Score(text, more).score >= Score(text, policy).score
  {
    JudgeMoreNice(Normalize(text), policy, phrase);
  }
}
