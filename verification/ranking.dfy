/**
 * The ranking pass (`__update_rankings`): participants ordered by score,
 * highest first, receive dense ranks (equal scores share a rank, the next
 * distinct score gets the next integer), and a participant who had a
 * non-zero rank records how far they moved.
 */
module Ranking {
  import opened Wrappers
  import opened Dict
  import opened Entities

  /** The distinct scores held by a list of participants. */
  function ScoresOf(ps: seq<Participant>): set<real>
  {
    set p | p in ps :: p.score
  }

  /** The distinct scores held in the participant table. */
  function TableScores(ps: Dict<string, Participant>): set<real>
  {
    set e | e in ps :: e.1.score
  }

  /** Dense rank of score `s`: how many distinct scores are at least `s`. */
  function DenseRank(scores: set<real>, s: real): int
  {
    |set x | x in scores && x >= s|
  }

  /** `if participant.rank:` — an absent or zero rank has no trend to record. */
  predicate HadRank(p: Participant)
  {
    p.rank.Some? && p.rank.value != 0
  }

  /** The trend and rank assignments at data.py:487-511. */
  function Rerank(p: Participant, rank: int): Participant
  {
    p.(rank := Some(rank), trend := if HadRank(p) then Some(p.rank.value - rank) else p.trend)
  }

  /** `q` is `p` with a rank in 1..n and a trend recording the move from a
      previous non-zero rank; nothing else differs. */
  predicate Moved(p: Participant, q: Participant, n: int)
  {
    && q == p.(rank := q.rank, trend := q.trend)
    && q.rank.Some? && 1 <= q.rank.value <= n
    && (HadRank(p) ==> q.trend == Some(p.rank.value - q.rank.value))
    && (!HadRank(p) ==> q.trend == p.trend)
  }

  lemma SubsetCard(a: set<real>, b: set<real>)
    requires a <= b
    ensures |a| <= |b|
    ensures a < b ==> |a| < |b|
  {
    var d := b - a;
    assert b == a + d && a * d == {};
    if a < b {
      assert d != {};
    }
  }

  /** Dense ranks order scores: a score present gets a rank of at least one,
      bounded by the number of distinct scores, and of two present scores the
      higher gets the strictly smaller rank. */
  lemma DenseRankOrder(scores: set<real>, s: real, t: real)
    requires s in scores && t in scores
    ensures 1 <= DenseRank(scores, s) <= |scores|
    ensures s > t ==> DenseRank(scores, s) < DenseRank(scores, t)
    ensures s == t <==> DenseRank(scores, s) == DenseRank(scores, t)
  {
    var above := set x | x in scores && x >= s;
    var below := set x | x in scores && x >= t;
    assert s in above;
    SubsetCard({s}, above);
    SubsetCard(above, scores);
    if s > t {
      assert above < below by { assert t in below && t !in above; }
      SubsetCard(above, below);
    } else if s < t {
      assert below < above by { assert s in above && s !in below; }
      SubsetCard(below, above);
    }
  }

  /** The greatest score present has rank one. */
  lemma TopRankIsOne(scores: set<real>, s: real)
    requires s in scores
    requires forall x :: x in scores ==> x <= s
    ensures DenseRank(scores, s) == 1
  {
    assert (set x | x in scores && x >= s) == {s};
  }

  /** Ranks follow the scores held in the same table: equal scores share a
      rank and a higher score has a strictly smaller rank. */
  predicate RankOrder(ps: Dict<string, Participant>)
  {
    forall i, j :: 0 <= i < |ps| && 0 <= j < |ps| ==>
      && (ps[i].1.score == ps[j].1.score <==> ps[i].1.rank == ps[j].1.rank)
      && (ps[i].1.score > ps[j].1.score ==> ps[i].1.rank.Some? && ps[j].1.rank.Some? && ps[i].1.rank.value < ps[j].1.rank.value)
  }

  /** Later passes that keep every score and rank keep the order. */
  lemma RankOrderKept(a: Dict<string, Participant>, b: Dict<string, Participant>)
    requires RankOrder(a) && |a| == |b|
    requires forall i :: 0 <= i < |a| ==> b[i].1.score == a[i].1.score && b[i].1.rank == a[i].1.rank
    ensures RankOrder(b)
  {
  }

  /** The whole pass, in closed form: ranks are dense ranks of the current
      scores, equal scores share a rank and a higher score has a smaller rank;
      trends record the rank change; nothing else changes. */
  function UpdateRankings(ps: Dict<string, Participant>): (r: Dict<string, Participant>)
    ensures |r| == |ps| && Keys(r) == Keys(ps)
    ensures ParticipantsKeyed(ps) ==> ParticipantsKeyed(r)
    ensures forall i :: 0 <= i < |ps| ==>
      r[i].0 == ps[i].0 && Moved(ps[i].1, r[i].1, |ps|)
    ensures forall i, j :: 0 <= i < |ps| && 0 <= j < |ps| ==>
      && (ps[i].1.score == ps[j].1.score <==> r[i].1.rank == r[j].1.rank)
      && (ps[i].1.score > ps[j].1.score ==> r[i].1.rank.Some? && r[j].1.rank.Some? && r[i].1.rank.value < r[j].1.rank.value)
    ensures forall i :: 0 <= i < |ps| && IsTop(ps, i) ==> r[i].1.rank == Some(1)
    ensures forall i :: 0 <= i < |ps| ==> r[i].1.rank == Some(DenseRank(TableScores(ps), ps[i].1.score))
    ensures RankOrder(r) && Gapless(r)
  {
    var r := RerankAll(ps, TableScores(ps));
    RanksOrdered(ps);
    RerankFields(ps, TableScores(ps));
    RanksFollowScores(ps, r);
    TopRanked(ps, r);
    RankedInOrder(ps, r);
    RanksGapless(ps, r);
    r
  }

  /** The ranks held in the participant table. */
  function Ranks(ps: Dict<string, Participant>): set<int>
  {
    set e | e in ps && e.1.rank.Some? :: e.1.rank.value
  }

  /** No rank is skipped: every rank from one up to any rank held is held by
      someone. With `RankOrder`, the ranks of a table are exactly 1 up to the
      number of distinct scores. */
  predicate Gapless(ps: Dict<string, Participant>)
  {
    forall i, k :: 0 <= i < |ps| && ps[i].1.rank.Some? && 1 <= k <= ps[i].1.rank.value ==> k in Ranks(ps)
  }

  /** Later passes that keep every rank keep the ranks gapless. */
  lemma GaplessKept(a: Dict<string, Participant>, b: Dict<string, Participant>)
    requires Gapless(a) && |a| == |b|
    requires forall i :: 0 <= i < |a| ==> b[i].1.rank == a[i].1.rank
    ensures Gapless(b)
  {
    forall k | k in Ranks(a) ensures k in Ranks(b) {
      var e :| e in a && e.1.rank.Some? && e.1.rank.value == k;
      var i :| 0 <= i < |a| && a[i] == e;
      assert b[i] in b;
    }
  }

  /** Later passes that keep every score keep the set of scores. */
  lemma TableScoresKept(a: Dict<string, Participant>, b: Dict<string, Participant>)
    requires |a| == |b|
    requires forall i :: 0 <= i < |a| ==> b[i].1.score == a[i].1.score
    ensures TableScores(a) == TableScores(b)
  {
    forall x | x in TableScores(a) ensures x in TableScores(b) {
      var e :| e in a && e.1.score == x;
      var i :| 0 <= i < |a| && a[i] == e;
      assert b[i] in b;
    }
    forall x | x in TableScores(b) ensures x in TableScores(a) {
      var e :| e in b && e.1.score == x;
      var i :| 0 <= i < |b| && b[i] == e;
      assert a[i] in a;
    }
  }

  /** The participant holding the least score above `s`, when someone scores
      above `s`. */
  lemma {:induction false} NextAbove(ps: Dict<string, Participant>, s: real) returns (j: int)
    requires exists k :: 0 <= k < |ps| && ps[k].1.score > s
    ensures 0 <= j < |ps| && ps[j].1.score > s
    ensures forall k :: 0 <= k < |ps| && ps[k].1.score > s ==> ps[j].1.score <= ps[k].1.score
  {
    var tail := ps[1..];
    assert forall k :: 0 <= k < |tail| ==> tail[k] == ps[k + 1];
    if exists k :: 0 <= k < |tail| && tail[k].1.score > s {
      var j' := NextAbove(tail, s);
      j := if ps[0].1.score > s && ps[0].1.score < tail[j'].1.score then 0 else j' + 1;
    } else {
      j := 0;
    }
  }

  /** The next higher score of the table has the dense rank just above. */
  lemma DenseRankStep(ps: Dict<string, Participant>, s: real, j: int)
    requires s in TableScores(ps) && 0 <= j < |ps| && ps[j].1.score > s
    requires forall k :: 0 <= k < |ps| && ps[k].1.score > s ==> ps[j].1.score <= ps[k].1.score
    ensures DenseRank(TableScores(ps), ps[j].1.score) == DenseRank(TableScores(ps), s) - 1
  {
    var scores, t := TableScores(ps), ps[j].1.score;
    var atLeast := set x | x in scores && x >= s;
    var above := set x | x in scores && x > s;
    assert atLeast == above + {s} && s !in above;
    forall x | x in above ensures x >= t {
      var e :| e in ps && e.1.score == x;
      var k :| 0 <= k < |ps| && ps[k] == e;
    }
    assert ps[j] in ps;
    assert (set x | x in scores && x >= t) == above;
  }

  /** The dense ranks of the pass leave no gap. */
  lemma RanksGapless(ps: Dict<string, Participant>, r: Dict<string, Participant>)
    requires r == RerankAll(ps, TableScores(ps))
    ensures Gapless(r)
  {
    forall i, k | 0 <= i < |r| && r[i].1.rank.Some? && 1 <= k <= r[i].1.rank.value
      ensures k in Ranks(r)
    {
      RankHeld(ps, r, i, k);
    }
  }

  /** Every rank from one up to participant `i`'s is held, found by stepping
      to the next higher score until rank `k` is reached. */
  lemma RankHeld(ps: Dict<string, Participant>, r: Dict<string, Participant>, i: int, k: int)
    requires r == RerankAll(ps, TableScores(ps))
    requires 0 <= i < |r| && r[i].1.rank.Some? && 1 <= k <= r[i].1.rank.value
    ensures k in Ranks(r)
    decreases r[i].1.rank.value - k
  {
    var scores := TableScores(ps);
    assert r[i].1.rank == Some(DenseRank(scores, ps[i].1.score));
    if k == r[i].1.rank.value {
      assert r[i] in r;
    } else {
      TopRanked(ps, r);
      assert !IsTop(ps, i);
      assert ps[i] in ps;
      var j := NextAbove(ps, ps[i].1.score);
      DenseRankStep(ps, ps[i].1.score, j);
      assert r[j].1.rank == Some(DenseRank(scores, ps[j].1.score));
      RankHeld(ps, r, j, k);
    }
  }

  /** The reranked table keeps every score, so its ranks follow its own scores. */
  lemma RankedInOrder(ps: Dict<string, Participant>, r: Dict<string, Participant>)
    requires r == RerankAll(ps, TableScores(ps))
    ensures RankOrder(r)
  {
    RanksFollowScores(ps, r);
    forall i | 0 <= i < |r| ensures r[i].1.score == ps[i].1.score {
      assert r[i].1 == Rerank(ps[i].1, DenseRank(TableScores(ps), ps[i].1.score));
    }
  }

  /** Ranks follow scores: equal scores share a rank, a higher score has a
      strictly smaller rank. */
  lemma RanksFollowScores(ps: Dict<string, Participant>, r: Dict<string, Participant>)
    requires r == RerankAll(ps, TableScores(ps))
    ensures forall i, j :: 0 <= i < |ps| && 0 <= j < |ps| ==>
      && (ps[i].1.score == ps[j].1.score <==> r[i].1.rank == r[j].1.rank)
      && (ps[i].1.score > ps[j].1.score ==> r[i].1.rank.Some? && r[j].1.rank.Some? && r[i].1.rank.value < r[j].1.rank.value)
  {
    var scores := TableScores(ps);
    RanksOrdered(ps);
    forall i, j | 0 <= i < |ps| && 0 <= j < |ps|
      ensures ps[i].1.score == ps[j].1.score <==> r[i].1.rank == r[j].1.rank
      ensures ps[i].1.score > ps[j].1.score ==> r[i].1.rank.Some? && r[j].1.rank.Some? && r[i].1.rank.value < r[j].1.rank.value
    {
      assert r[i].1.rank == Some(DenseRank(scores, ps[i].1.score));
      assert r[j].1.rank == Some(DenseRank(scores, ps[j].1.score));
    }
  }

  /** Participant `i` holds the highest score of the table. */
  predicate IsTop(ps: Dict<string, Participant>, i: int)
    requires 0 <= i < |ps|
  {
    forall j :: 0 <= j < |ps| ==> ps[j].1.score <= ps[i].1.score
  }

  /** A participant holding the highest score is ranked first. */
  lemma TopRanked(ps: Dict<string, Participant>, r: Dict<string, Participant>)
    requires r == RerankAll(ps, TableScores(ps))
    ensures forall i :: 0 <= i < |ps| && IsTop(ps, i) ==> r[i].1.rank == Some(1)
  {
    forall i | 0 <= i < |ps| && IsTop(ps, i) ensures r[i].1.rank == Some(1) {
      TopScoreRanksOne(ps, i);
    }
  }

  lemma TopScoreRanksOne(ps: Dict<string, Participant>, i: int)
    requires 0 <= i < |ps| && IsTop(ps, i)
    ensures DenseRank(TableScores(ps), ps[i].1.score) == 1
  {
    var scores := TableScores(ps);
    assert ps[i] in ps;
    forall x | x in scores ensures x <= ps[i].1.score {
      var e :| e in ps && e.1.score == x;
      var j :| 0 <= j < |ps| && ps[j] == e;
    }
    TopRankIsOne(scores, ps[i].1.score);
  }

  lemma RerankFields(ps: Dict<string, Participant>, scores: set<real>)
    requires forall i :: 0 <= i < |ps| ==> 1 <= DenseRank(scores, ps[i].1.score) <= |ps|
    ensures forall i :: 0 <= i < |ps| ==> Moved(ps[i].1, RerankAll(ps, scores)[i].1, |ps|)
  {
    var r := RerankAll(ps, scores);
    forall i | 0 <= i < |ps| ensures Moved(ps[i].1, r[i].1, |ps|) {
      assert r[i].1 == Rerank(ps[i].1, DenseRank(scores, ps[i].1.score));
      RerankMoved(ps[i].1, DenseRank(scores, ps[i].1.score), |ps|);
    }
  }

  lemma RerankMoved(p: Participant, rank: int, n: int)
    requires 1 <= rank <= n
    ensures Moved(p, Rerank(p, rank), n)
  {
  }

  /** Every participant reranked by the dense rank of its score among `scores`. */
  function RerankAll(ps: Dict<string, Participant>, scores: set<real>): (r: Dict<string, Participant>)
    ensures |r| == |ps| && Keys(r) == Keys(ps)
    ensures ParticipantsKeyed(ps) ==> ParticipantsKeyed(r)
    ensures forall i :: 0 <= i < |ps| ==> r[i] == (ps[i].0, Rerank(ps[i].1, DenseRank(scores, ps[i].1.score)))
  {
    if ps == [] then []
    else [(ps[0].0, Rerank(ps[0].1, DenseRank(scores, ps[0].1.score)))] + RerankAll(ps[1..], scores)
  }

  lemma RanksOrdered(ps: Dict<string, Participant>)
    ensures forall i :: 0 <= i < |ps| ==>
      1 <= DenseRank(TableScores(ps), ps[i].1.score) <= |ps|
    ensures forall i, j :: 0 <= i < |ps| && 0 <= j < |ps| ==>
      && (ps[i].1.score == ps[j].1.score <==> DenseRank(TableScores(ps), ps[i].1.score) == DenseRank(TableScores(ps), ps[j].1.score))
      && (ps[i].1.score > ps[j].1.score ==> DenseRank(TableScores(ps), ps[i].1.score) < DenseRank(TableScores(ps), ps[j].1.score))
  {
    var scores := TableScores(ps);
    TableScoresCard(ps);
    forall i, j | 0 <= i < |ps| && 0 <= j < |ps|
      ensures 1 <= DenseRank(scores, ps[i].1.score) <= |ps|
      ensures ps[i].1.score == ps[j].1.score <==> DenseRank(scores, ps[i].1.score) == DenseRank(scores, ps[j].1.score)
      ensures ps[i].1.score > ps[j].1.score ==> DenseRank(scores, ps[i].1.score) < DenseRank(scores, ps[j].1.score)
    {
      assert ps[i] in ps && ps[j] in ps;
      DenseRankOrder(scores, ps[i].1.score, ps[j].1.score);
    }
  }

  /** There are no more distinct scores than participants. */
  lemma {:induction false} TableScoresCard(ps: Dict<string, Participant>)
    ensures |TableScores(ps)| <= |ps|
  {
    if ps != [] {
      TableScoresCard(ps[1..]);
      assert TableScores(ps) == {ps[0].1.score} + TableScores(ps[1..]) by {
        forall x | x in TableScores(ps) ensures x in {ps[0].1.score} + TableScores(ps[1..]) {
          var e :| e in ps && e.1.score == x;
          if e != ps[0] { assert e in ps[1..]; }
        }
      }
    }
  }

  /** Sorted by score, highest first (`order_by('-score', ...)`). */
  predicate Descending(s: seq<Participant>)
  {
    forall i, j :: 0 <= i < j < |s| ==> s[i].score >= s[j].score
  }

  /** In a descending list, the scores at or above position `j` are exactly
      the distinct scores at least `s[j].score`. */
  lemma PrefixScores(s: seq<Participant>, j: int)
    requires Descending(s) && 0 <= j < |s|
    ensures ScoresOf(s[..j + 1]) == set x | x in ScoresOf(s) && x >= s[j].score
  {
    forall x | x in ScoresOf(s) && x >= s[j].score ensures x in ScoresOf(s[..j + 1]) {
      var p :| p in s && p.score == x;
      var k :| 0 <= k < |s| && s[k] == p;
      if k > j {
        assert s[j] in s[..j + 1];
      } else {
        assert s[k] in s[..j + 1];
      }
    }
    forall x | x in ScoresOf(s[..j + 1]) ensures x in ScoresOf(s) && x >= s[j].score {
      var p :| p in s[..j + 1] && p.score == x;
      var k :| 0 <= k <= j && s[k] == p;
      assert p in s;
    }
  }

  /** Appending a participant adds its score to the scores seen. */
  lemma ScoresSnoc(s: seq<Participant>, p: Participant)
    ensures ScoresOf(s + [p]) == ScoresOf(s) + {p.score}
  {
    forall x | x in ScoresOf(s + [p]) ensures x in ScoresOf(s) + {p.score} {
      var q :| q in s + [p] && q.score == x;
      if q != p { assert q in s; }
    }
  }

  /** In a descending list, a score below the last one is not among those seen. */
  lemma BelowUnseen(s: seq<Participant>, i: int)
    requires Descending(s) && 0 < i < |s| && s[i].score != s[i - 1].score
    ensures s[i].score !in ScoresOf(s[..i])
  {
    forall p | p in s[..i] ensures p.score > s[i].score {
      var k :| 0 <= k < i && s[k] == p;
      assert s[k].score >= s[i - 1].score;
    }
  }

  /** One more participant: its score is new exactly when it differs from the
      previous one. */
  lemma ExtendScores(s: seq<Participant>, i: int)
    requires Descending(s) && 0 <= i < |s|
    ensures ScoresOf(s[..i + 1]) == ScoresOf(s[..i]) + {s[i].score}
    ensures i == 0 ==> |ScoresOf(s[..i + 1])| == 1
    ensures i > 0 && s[i].score == s[i - 1].score ==> |ScoresOf(s[..i + 1])| == |ScoresOf(s[..i])|
    ensures i > 0 && s[i].score != s[i - 1].score ==> |ScoresOf(s[..i + 1])| == |ScoresOf(s[..i])| + 1
  {
    assert s[..i + 1] == s[..i] + [s[i]];
    ScoresSnoc(s[..i], s[i]);
    if i == 0 {
      assert ScoresOf(s[..0]) == {};
    } else if s[i].score == s[i - 1].score {
      assert s[i - 1] in s[..i];
      assert s[i].score in ScoresOf(s[..i]);
      assert ScoresOf(s[..i + 1]) == ScoresOf(s[..i]);
    } else {
      BelowUnseen(s, i);
    }
  }

  /** How many distinct scores the first `n` participants hold: the rank the
      loop has reached after `n` of them. */
  function Seen(s: seq<Participant>, n: int): nat
    requires 0 <= n <= |s|
  {
    |ScoresOf(s[..n])|
  }

  /** The loop's test: the count grows exactly when a score differs from the
      previous one (or at the first participant). */
  lemma SeenStep(s: seq<Participant>, i: int)
    requires Descending(s) && 0 <= i < |s|
    ensures Seen(s, i) == 0 <==> i == 0
    ensures i == 0 ==> Seen(s, 1) == 1
    ensures i > 0 && s[i].score == s[i - 1].score ==> Seen(s, i + 1) == Seen(s, i)
    ensures i > 0 && s[i].score != s[i - 1].score ==> Seen(s, i + 1) == Seen(s, i) + 1
  {
    ExtendScores(s, i);
    if i > 0 {
      assert s[0] in s[..i];
      assert s[0].score in ScoresOf(s[..i]);
    } else {
      assert ScoresOf(s[..i]) == {};
    }
  }

  /** One iteration of the loop's test keeps the rank equal to the number of
      distinct scores seen. */
  lemma RankStep(s: seq<Participant>, i: int, rank: int, lastScore: real)
    requires Descending(s) && 0 <= i < |s|
    requires rank == Seen(s, i) && (i > 0 ==> lastScore == s[i - 1].score)
    ensures (if rank == 0 || lastScore != s[i].score then rank + 1 else rank) == Seen(s, i + 1)
  {
    SeenStep(s, i);
  }

  /** The first `n` entries of `ranked` carry the rank the loop gives them. */
  predicate RankedPrefix(sorted: seq<Participant>, ranked: seq<Participant>, n: int)
    requires 0 <= n <= |sorted| && |ranked| == n
  {
    forall j :: 0 <= j < n ==> ranked[j] == Rerank(sorted[j], Seen(sorted, j + 1))
  }

  lemma RankedExtend(sorted: seq<Participant>, ranked: seq<Participant>, i: int, rank: int)
    requires 0 <= i < |sorted| && |ranked| == i && RankedPrefix(sorted, ranked, i)
    requires rank == Seen(sorted, i + 1)
    ensures RankedPrefix(sorted, ranked + [Rerank(sorted[i], rank)], i + 1)
  {
  }

  /** The loop at data.py:482-514 over the participants in score order. */
  method AssignRanks(sorted: seq<Participant>) returns (ranked: seq<Participant>)
    requires Descending(sorted)
    ensures |ranked| == |sorted|
    ensures forall i :: 0 <= i < |sorted| ==>
      ranked[i] == Rerank(sorted[i], DenseRank(ScoresOf(sorted), sorted[i].score))
    ensures forall i :: 0 <= i < |sorted| ==> ranked[i].rank.Some?
    ensures |sorted| > 0 ==> ranked[0].rank == Some(1)
    ensures forall i :: 0 < i < |sorted| ==>
      && (sorted[i].score == sorted[i - 1].score ==> ranked[i].rank == ranked[i - 1].rank)
      && (sorted[i].score != sorted[i - 1].score ==> ranked[i].rank.value == ranked[i - 1].rank.value + 1)
  {
    var rank := 0;
    var lastScore := 0.0;
    ranked := [];
    var i := 0;
    while i < |sorted|
      invariant 0 <= i <= |sorted|
      invariant |ranked| == i
      invariant i > 0 ==> lastScore == sorted[i - 1].score
      invariant rank == Seen(sorted, i)
      invariant RankedPrefix(sorted, ranked, i)
    {
      RankStep(sorted, i, rank, lastScore);
      if rank == 0 || lastScore != sorted[i].score {
        rank := rank + 1;
        lastScore := sorted[i].score;
      }
      RankedExtend(sorted, ranked, i, rank);
      ranked := ranked + [Rerank(sorted[i], rank)];
      i := i + 1;
    }
    PrefixRanksDense(sorted, ranked);
    PrefixRanksAdjacent(sorted, ranked);
  }

  /** Ranking by the number of distinct scores seen so far is dense ranking. */
  lemma PrefixRanksDense(sorted: seq<Participant>, ranked: seq<Participant>)
    requires Descending(sorted) && |ranked| == |sorted| && RankedPrefix(sorted, ranked, |sorted|)
    ensures forall i :: 0 <= i < |sorted| ==>
      ranked[i] == Rerank(sorted[i], DenseRank(ScoresOf(sorted), sorted[i].score))
  {
    forall j | 0 <= j < |sorted|
      ensures ranked[j] == Rerank(sorted[j], DenseRank(ScoresOf(sorted), sorted[j].score))
    {
      PrefixScores(sorted, j);
      assert Seen(sorted, j + 1) == |ScoresOf(sorted[..j + 1])|;
    }
  }

  /** Ranking by the number of distinct scores seen so far starts at one and
      steps by one exactly where the score drops. */
  lemma PrefixRanksAdjacent(sorted: seq<Participant>, ranked: seq<Participant>)
    requires Descending(sorted) && |ranked| == |sorted| && RankedPrefix(sorted, ranked, |sorted|)
    ensures forall i :: 0 <= i < |sorted| ==> ranked[i].rank.Some?
    ensures |sorted| > 0 ==> ranked[0].rank == Some(1)
    ensures forall i :: 0 < i < |sorted| ==>
      && (sorted[i].score == sorted[i - 1].score ==> ranked[i].rank == ranked[i - 1].rank)
      && (sorted[i].score != sorted[i - 1].score ==> ranked[i].rank.value == ranked[i - 1].rank.value + 1)
  {
    forall j | 0 <= j < |sorted|
      ensures j == 0 ==> ranked[j].rank == Some(1)
      ensures j > 0 && sorted[j].score == sorted[j - 1].score ==> ranked[j].rank == ranked[j - 1].rank
      ensures j > 0 && sorted[j].score != sorted[j - 1].score ==> ranked[j].rank.value == ranked[j - 1].rank.value + 1
    {
      SeenStep(sorted, j);
    }
  }

  /** The method and the closed form agree whenever the sorted list holds the
      participants of the table. */
  lemma SortedTableAgrees(sorted: seq<Participant>, ps: Dict<string, Participant>)
    requires forall p :: p in sorted <==> exists e :: e in ps && e.1 == p
    ensures ScoresOf(sorted) == TableScores(ps)
  {
    forall x | x in TableScores(ps) ensures x in ScoresOf(sorted) {
      var e :| e in ps && e.1.score == x;
      assert e.1 in sorted;
    }
  }
}
