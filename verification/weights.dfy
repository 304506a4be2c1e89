/**
 * The weight-factor pass (`__update_weight_factors`): each participant's
 * weight for the next run is their score scaled by the largest score (at
 * least 1.0) into [0.1, 1.0], or 0 for a negative score.
 */
module Weights {
  import opened Wrappers
  import opened Dict
  import opened Entities

  /** The weight a zero score earns. */
  const Floor: real := 0.1
  /** The width of the range above the floor. */
  const Span: real := 0.9

  /** The running maximum of the loop at data.py:543-547, from `acc`. */
  function MaxFrom(ps: Dict<string, Participant>, acc: real): (m: real)
    ensures m >= acc
    ensures forall e :: e in ps ==> e.1.score <= m
    ensures m == acc || exists e :: e in ps && e.1.score == m
  {
    if ps == [] then acc
    else
      assert forall e :: e in ps ==> e == ps[0] || e in ps[1..];
      MaxFrom(ps[1..], if ps[0].1.score > acc then ps[0].1.score else acc)
  }

  /** The largest score, but never below 1.0. */
  function MaxScore(ps: Dict<string, Participant>): (m: real)
    ensures m >= 1.0
    ensures forall e :: e in ps ==> e.1.score <= m
    ensures m == 1.0 || exists e :: e in ps && e.1.score == m
  {
    MaxFrom(ps, 1.0)
  }

  /** The weight of a participant with `score` when the largest score is
      `maxScore` (data.py:550-556). */
  function Weight(score: real, maxScore: real): (w: real)
    requires maxScore >= 1.0
    ensures score < 0.0 ==> w == 0.0
    ensures 0.0 <= score <= maxScore ==> Floor <= w <= 1.0
    ensures 0.0 <= score ==> (w == 1.0 <==> score == maxScore)
  {
    if score < 0.0 then 0.0
    else
      WeightScale(score, maxScore);
      score / maxScore * Span + Floor
  }

  lemma WeightScale(score: real, maxScore: real)
    requires maxScore >= 1.0 && 0.0 <= score
    ensures score <= maxScore ==> score / maxScore <= 1.0
    ensures score / maxScore >= 0.0
    ensures score / maxScore == 1.0 <==> score == maxScore
  {
    var q := score / maxScore;
    assert q * maxScore == score;
    if score == maxScore {
      assert (q - 1.0) * maxScore == 0.0;
    }
  }

  /** A higher score never earns a smaller weight. */
  lemma WeightMonotone(s: real, t: real, maxScore: real)
    requires maxScore >= 1.0 && s <= t
    ensures Weight(s, maxScore) <= Weight(t, maxScore)
  {
    if 0.0 <= s {
      assert s / maxScore <= t / maxScore by {
        assert t / maxScore - s / maxScore == (t - s) / maxScore;
      }
    }
  }

  /** The docstring example: scores 2, 0.8 and 10 give weights 0.28, 0.172
      and 1.0. */
  lemma WeightExample()
    ensures Weight(2.0, 10.0) == 0.28
    ensures Weight(0.8, 10.0) == 0.172
    ensures Weight(10.0, 10.0) == 1.0
  {
  }

  /** Every weight for the next run, in one pass. */
  function SetWeights(ps: Dict<string, Participant>, maxScore: real): (r: Dict<string, Participant>)
    requires maxScore >= 1.0
    ensures |r| == |ps| && Keys(r) == Keys(ps)
    ensures ParticipantsKeyed(ps) ==> ParticipantsKeyed(r)
    ensures forall i :: 0 <= i < |ps| ==>
      r[i] == (ps[i].0, ps[i].1.(weightFactor := Weight(ps[i].1.score, maxScore)))
  {
    if ps == [] then []
    else [(ps[0].0, ps[0].1.(weightFactor := Weight(ps[0].1.score, maxScore)))] + SetWeights(ps[1..], maxScore)
  }

  /** `w` is 0 or lies in [0.1, 1]. */
  predicate Admissible(w: real)
  {
    w == 0.0 || Floor <= w <= 1.0
  }

  /** The largest score depends on the scores alone, not on the rest of the
      participants' records. */
  lemma {:induction false} MaxFromScores(ps: Dict<string, Participant>, qs: Dict<string, Participant>, acc: real)
    requires |ps| == |qs| && forall i :: 0 <= i < |ps| ==> ps[i].1.score == qs[i].1.score
    ensures MaxFrom(ps, acc) == MaxFrom(qs, acc)
  {
    if ps != [] {
      MaxFromScores(ps[1..], qs[1..], if ps[0].1.score > acc then ps[0].1.score else acc);
    }
  }

  /** The whole pass: every participant's weight becomes `Weight` of their
      score against the largest score, and nothing else changes; so every
      weight is admissible, a participant gets weight 1.0 exactly when they
      hold the largest score and it is at least 1.0, and negative scores get 0. */
  function UpdateWeightFactors(ps: Dict<string, Participant>): (r: Dict<string, Participant>)
    ensures |r| == |ps| && Keys(r) == Keys(ps)
    ensures ParticipantsKeyed(ps) ==> ParticipantsKeyed(r)
    ensures forall i :: 0 <= i < |ps| ==>
      && r[i].0 == ps[i].0
      && r[i].1 == ps[i].1.(weightFactor := Weight(ps[i].1.score, MaxScore(ps)))
      && Admissible(r[i].1.weightFactor)
      && (ps[i].1.score < 0.0 <==> r[i].1.weightFactor == 0.0)
      && (r[i].1.weightFactor == 1.0 <==> ps[i].1.score == MaxScore(ps))
  {
    var m := MaxScore(ps);
    WeightsAdmissible(ps, m);
    SetWeights(ps, m)
  }

  lemma WeightsAdmissible(ps: Dict<string, Participant>, m: real)
    requires m == MaxScore(ps)
    ensures forall i :: 0 <= i < |ps| ==>
      var w := SetWeights(ps, m)[i].1.weightFactor;
      && Admissible(w)
      && (ps[i].1.score < 0.0 <==> w == 0.0)
      && (w == 1.0 <==> ps[i].1.score == m)
  {
    forall i | 0 <= i < |ps|
      ensures var w := Weight(ps[i].1.score, m);
        Admissible(w) && (ps[i].1.score < 0.0 <==> w == 0.0) && (w == 1.0 <==> ps[i].1.score == m)
    {
      assert ps[i] in ps;
    }
  }

  /** Some participant ends with weight 1.0 exactly when some score reached
      1.0: with every score below 1.0 the divisor stays 1.0 and nobody reaches
      the top weight. */
  lemma {:induction false} TopWeightExists(ps: Dict<string, Participant>)
    ensures (exists i :: 0 <= i < |ps| && UpdateWeightFactors(ps)[i].1.weightFactor == 1.0)
        <==> (exists e :: e in ps && e.1.score >= 1.0)
  {
    var r := UpdateWeightFactors(ps);
    var m := MaxScore(ps);
    if exists e :: e in ps && e.1.score >= 1.0 {
      var e :| e in ps && e.1.score >= 1.0;
      var e' :| e' in ps && e'.1.score == m;
      var i :| 0 <= i < |ps| && ps[i] == e';
      assert r[i].1.weightFactor == 1.0;
    }
    if exists i :: 0 <= i < |ps| && r[i].1.weightFactor == 1.0 {
      var i :| 0 <= i < |ps| && r[i].1.weightFactor == 1.0;
      assert ps[i] in ps;
    }
  }
}
