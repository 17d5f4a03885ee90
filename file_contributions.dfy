/**
 * Per-file bookkeeping of the contribution analysis: the accumulator
 * `FileContributions` and the ratios reported from it.
 */
module Contributions {
  import opened Common
  import opened GitUsers

  /** A Java `double` quotient: a real value, or NaN for 0/0. */
  datatype Ratio = Value(r: real) | NaN

  /** `(double) part / whole` for a non-negative part: NaN when the whole is 0. */
  function Share(part: int, whole: int): (q: Ratio)
    ensures whole == 0 <==> q.NaN?
    ensures q.Value? ==> q.r * (whole as real) == part as real
  {
    if whole == 0 then NaN else Value((part as real) / (whole as real))
  }

  /** The real values of a map of ratios none of which is NaN. */
  ghost function Values<K>(m: map<K, Ratio>): map<K, real>
    requires forall k :: k in m ==> m[k].Value?
  {
    map k | k in m :: m[k].r
  }

  /** Each part's share of the whole. */
  function SharesOf<K>(parts: map<K, int>, whole: int): (r: map<K, Ratio>)
    ensures r.Keys == parts.Keys
    ensures forall k :: k in parts ==> r[k] == Share(parts[k], whole)
  {
    map k | k in parts :: Share(parts[k], whole)
  }

  /** Shares of a nonzero whole that is the sum of the parts add up to one. */
  lemma SharesSumToOne<K>(parts: map<K, int>, whole: int)
    requires whole == SumValues(parts) && whole != 0
    ensures forall k :: k in parts ==> SharesOf(parts, whole)[k].Value?
    ensures SumReals(Values(SharesOf(parts, whole))) == 1.0
  {
    var shares := SharesOf(parts, whole);
    var f := 1.0 / (whole as real);
    forall k | k in parts
      ensures Values(shares)[k] == Scaled(parts[k], f)
    {
      ShareIsScaled(parts[k], whole);
    }
    SumOfScaledShares(parts, Values(shares), f);
    WholeIsOne(whole);
  }

  lemma WholeIsOne(whole: int)
    requires whole != 0
    ensures Scaled(whole, 1.0 / (whole as real)) == 1.0
  {
  }

  lemma ShareIsScaled(part: int, whole: int)
    requires whole != 0
    ensures Share(part, whole).r == Scaled(part, 1.0 / (whole as real))
  {
  }

  /** A share of a non-negative part no larger than the whole lies in [0, 1]. */
  lemma ShareBounds(part: int, whole: int)
    requires 0 <= part <= whole && whole != 0
    ensures 0.0 <= Share(part, whole).r <= 1.0
  {
    var q := Share(part, whole).r;
    assert q * (whole as real) == part as real;
    if q > 1.0 {
      ProductGrows(q, 1.0, whole as real);
    }
    if q < 0.0 {
      ProductGrows(0.0, q, whole as real);
    }
  }

  lemma ProductGrows(a: real, b: real, c: real)
    requires a > b && c > 0.0
    ensures a * c > b * c
  {
  }

  /**
   * `FileContributions`: one file's score per user (`None` stands for a null
   * author) and the overall score, which is always the sum of the per-user
   * scores.
   */
  class FileContributions {
    var overallScore: int
    var contributionPerUser: map<Option<UserId>, int>

    ghost predicate Valid()
      reads this
    {
      overallScore == SumValues(contributionPerUser)
    }

    constructor ()
      ensures Valid() && overallScore == 0 && contributionPerUser == map[]
    {
      overallScore := 0;
      contributionPerUser := map[];
    }

    /**
     * `addContribution`: adds the score to the given user's entry only,
     * starting it at 0 when absent, and to the overall score.
     */
    method AddContribution(who: Option<UserId>, contributionScore: int)
      requires Valid()
      modifies this
      ensures Valid()
      ensures contributionPerUser ==
        old(contributionPerUser)[who := contributionScore + (if who in old(contributionPerUser) then old(contributionPerUser)[who] else 0)]
      ensures overallScore == old(overallScore) + contributionScore
    {
      SumValuesAdd(contributionPerUser, who, contributionScore);
      if who !in contributionPerUser {
        contributionPerUser := contributionPerUser[who := 0];
      }
      contributionPerUser := contributionPerUser[who := contributionScore + contributionPerUser[who]];
      overallScore := overallScore + contributionScore;
      assert contributionPerUser ==
        old(contributionPerUser)[who := (if who in old(contributionPerUser) then old(contributionPerUser)[who] else 0) + contributionScore];
    }
  }
}
