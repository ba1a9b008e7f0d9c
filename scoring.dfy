/** Score post-processing of the compatibility computation: a candidate's
    distance becomes a percentage clamped below at zero, and each percentage
    is colour-coded against two thresholds. The distance itself (score
    normalisation, the random-forest reconstruction of the query and the
    Euclidean distance to each candidate) is an abstract oracle. */
module Scoring {
  import opened Students

  /** Colour code shown beside a candidate. */
  datatype Tier = Red | Orange | Green

  const RedThreshold: real := 35.0
  const OrangeThreshold: real := 70.0

  /** Position of a tier in the order red < orange < green. */
  function Rank(t: Tier): nat
  {
    match t
    case Red => 0
    case Orange => 1
    case Green => 2
  }

  /** The distance between the model's reconstruction of the query student and
      candidate `i` of `pool`. A fresh, unseeded model is fitted on every
      request, so each request may use a different oracle. */
  type DistanceOracle = (Scores, seq<Scores>, nat) -> real

  /** A Euclidean distance is never negative. */
  ghost predicate IsDistanceOracle(distance: DistanceOracle)
  {
    forall query, pool, i :: distance(query, pool, i) >= 0.0
  }

  /** The oracle's distances for every candidate of `pool`, in pool order. */
  function Distances(distance: DistanceOracle, query: Scores, pool: seq<Scores>): seq<real>
  {
    seq(|pool|, i requires 0 <= i < |pool| => distance(query, pool, i))
  }

  /** Similarity `1 - d` as a percentage, negative values set to 0. */
  function Percentage(d: real): (p: real)
    ensures p >= 0.0 && p >= (1.0 - d) * 100.0
    ensures p == 0.0 || p == (1.0 - d) * 100.0
    ensures d <= 1.0 ==> p == (1.0 - d) * 100.0
    ensures d >= 1.0 ==> p == 0.0
    ensures d >= 0.0 ==> p <= 100.0
    ensures d == 0.0 ==> p == 100.0
  {
    var raw := (1.0 - d) * 100.0;
    if raw < 0.0 then 0.0 else raw
  }

  /** The colour code of a percentage: red below 35, orange from 35 up to
      (not including) 70, green from 70 on. */
  function Classify(p: real): (t: Tier)
    ensures t == Red <==> p < RedThreshold
    ensures t == Orange <==> RedThreshold <= p < OrangeThreshold
    ensures t == Green <==> OrangeThreshold <= p
  {
    if p < RedThreshold then Red
    else if p < OrangeThreshold then Orange
    else Green
  }

  /** The element-wise percentages of a vector of distances. */
  function Percentages(ds: seq<real>): (ps: seq<real>)
    ensures |ps| == |ds|
    ensures forall i :: 0 <= i < |ds| ==> ps[i] == Percentage(ds[i])
    ensures forall i :: 0 <= i < |ds| ==> 0.0 <= ps[i]
    ensures (forall i :: 0 <= i < |ds| ==> ds[i] >= 0.0) ==>
              forall i :: 0 <= i < |ds| ==> ps[i] <= 100.0
  {
    if ds == [] then [] else [Percentage(ds[0])] + Percentages(ds[1..])
  }

  /** What the computation hands back: one percentage and one colour code per
      candidate, in candidate order. */
  datatype Scored = Scored(percentages: seq<real>, colors: seq<Tier>)

  /** Scores every candidate against the query student. The learning styles
      are accepted and never read. Fitting the model fails when there are no
      candidates. */
  method CalculateCompatibility(
    queryScores: Scores, queryStyle: string,
    candidateScores: seq<Scores>, candidateStyles: seq<string>,
    distance: DistanceOracle)
    returns (r: Result<Scored, MatchError>)
    requires IsDistanceOracle(distance)
    ensures r.Failure? <==> candidateScores == []
    ensures r.Failure? ==> r.error == EmptyPool
    ensures r.Success? ==>
              var ds := Distances(distance, queryScores, candidateScores);
              && |r.value.percentages| == |candidateScores|
              && |r.value.colors| == |candidateScores|
              && (forall i :: 0 <= i < |candidateScores| ==>
                    && r.value.percentages[i] == Percentage(ds[i])
                    && 0.0 <= r.value.percentages[i] <= 100.0
                    && r.value.colors[i] == Classify(r.value.percentages[i]))
  {
    if candidateScores == [] {
      return Failure(EmptyPool);
    }
    var ds := Distances(distance, queryScores, candidateScores);
    var percentages := Percentages(ds);
    var colors: seq<Tier> := [];
    for k := 0 to |percentages|
      invariant |colors| == k
      invariant forall j :: 0 <= j < k ==> colors[j] == Classify(percentages[j])
    {
      var percentage := percentages[k];
      if percentage < RedThreshold {
        colors := colors + [Red];
      } else if percentage < OrangeThreshold {
        colors := colors + [Orange];
      } else {
        colors := colors + [Green];
      }
    }
    return Success(Scored(percentages, colors));
  }

  /** Colour-code boundaries: exactly 35 is orange and exactly 70 is green. */
  lemma ClassifyBoundaries()
    ensures Classify(34.999) == Red
    ensures Classify(RedThreshold) == Orange
    ensures Classify(69.999) == Orange
    ensures Classify(OrangeThreshold) == Green
  {
  }

  /** A higher percentage never gets a lower colour code. */
  lemma ClassifyMonotone(p: real, q: real)
    requires p <= q
    ensures Rank(Classify(p)) <= Rank(Classify(q))
  {
  }

  /** A closer candidate never gets a lower percentage. */
  lemma PercentageAntitone(d1: real, d2: real)
    requires d1 <= d2
    ensures Percentage(d2) <= Percentage(d1)
  {
  }

  /** A closer candidate never gets a lower colour code. */
  lemma CloserNeverLowerTier(d1: real, d2: real)
    requires d1 <= d2
    ensures Rank(Classify(Percentage(d2))) <= Rank(Classify(Percentage(d1)))
  {
    PercentageAntitone(d1, d2);
    ClassifyMonotone(Percentage(d2), Percentage(d1));
  }
}
