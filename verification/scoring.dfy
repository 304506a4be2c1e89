/**
 * The score aggregator (`__update_score`): reactions newer than a
 * participant's checkpoint are folded into cumulative counters and into the
 * score S = P1 - N1 + c1 * P2 + c2 * N2, and into the tallies of the comment
 * reacted to.
 */
module Scoring {
  import opened Wrappers
  import opened Dict
  import opened Text
  import opened Entities

  /** Bonus per THUMBS_UP given. */
  const C1: real := 0.05
  /** Bonus per THUMBS_DOWN given. */
  const C2: real := 0.2

  const ThumbsUp: string := "THUMBS_UP"
  const ThumbsDown: string := "THUMBS_DOWN"

  datatype Kind = Positive | Negative | Ignored

  /** The content tests at data.py:401 and 410: THUMBS_UP is looked for first. */
  function Classify(content: string): Kind
  {
    if Contains(content, ThumbsUp) then Positive
    else if Contains(content, ThumbsDown) then Negative
    else Ignored
  }

  /** A reaction whose content mentions both kinds counts as positive; one
      that mentions neither is ignored. */
  lemma ClassifyExamples()
    ensures Classify("THUMBS_UP") == Positive
    ensures Classify("THUMBS_DOWN") == Negative
    ensures Classify("THUMBS_DOWN THUMBS_UP") == Positive
    ensures Classify("HEART") == Ignored
  {
    assert OccursAt("THUMBS_UP", ThumbsUp, 0);
    assert OccursAt("THUMBS_DOWN", ThumbsDown, 0);
    assert OccursAt("THUMBS_DOWN THUMBS_UP", ThumbsUp, 12);
    assert !Contains("THUMBS_DOWN", ThumbsUp) by {
      forall i ensures !OccursAt("THUMBS_DOWN", ThumbsUp, i) {
        if 0 <= i <= 2 {
          assert ThumbsUp[7] == 'U';
          if i == 0 {
            assert "THUMBS_DOWN"[7] == 'D';
          } else if i == 1 {
            assert "THUMBS_DOWN"[8] == 'O';
          } else {
            assert "THUMBS_DOWN"[9] == 'W';
          }
          assert "THUMBS_DOWN"[i..i + 9][7] != ThumbsUp[7];
        }
      }
    }
  }

  /** Counts and giver-weighted sums of the reactions a participant received
      (pos_cnt, neg_cnt, P1, N1), or that a comment received. */
  datatype Tally = Tally(pos: int, neg: int, weightedPos: real, weightedNeg: real)

  const NoTally: Tally := Tally(0, 0, 0.0, 0.0)

  function Plus(a: Tally, b: Tally): Tally
  {
    Tally(a.pos + b.pos, a.neg + b.neg, a.weightedPos + b.weightedPos, a.weightedNeg + b.weightedNeg)
  }

  /** What one counted reaction of giver weight `w` adds. */
  function Credit(kind: Kind, w: real): Tally
  {
    match kind
    case Positive => Tally(1, 0, w, 0.0)
    case Negative => Tally(0, 1, 0.0, w)
    case Ignored => NoTally
  }

  /** Counts of the reactions a participant gave (P2, N2). */
  datatype Counts = Counts(up: int, down: int)

  /** The checkpoint test at data.py:392 and 428: strictly older reactions
      were folded in by an earlier run. */
  predicate Skipped(createdAt: int, checkpoint: Option<int>)
  {
    checkpoint.Some? && createdAt < checkpoint.value
  }

  /** `reaction.giver.weight_factor`, read before this run changes any weight. */
  function GiverWeight(ps: Dict<string, Participant>, r: Reaction): real
  {
    if r.giver.Some? && Get(ps, r.giver.value).Some? then Get(ps, r.giver.value).value.weightFactor else 0.0
  }

  predicate WeightsBounded(ps: Dict<string, Participant>)
  {
    forall e :: e in ps ==> 0.0 <= e.1.weightFactor <= 1.0
  }

  /** The giver weight lies in [0, 1] when every weight does. */
  lemma GiverWeightBounded(ps: Dict<string, Participant>, r: Reaction)
    ensures WeightsBounded(ps) ==> 0.0 <= GiverWeight(ps, r) <= 1.0
  {
    if WeightsBounded(ps) && r.giver.Some? && Get(ps, r.giver.value).Some? {
      assert (r.giver.value, Get(ps, r.giver.value).value) in ps;
    }
  }

  /** The contribution of one reaction `p` received: nothing when it is not
      theirs or is older than their checkpoint. */
  function ReceivedStep(r: Reaction, p: Participant, ps: Dict<string, Participant>): Tally
  {
    if r.receiver == Some(p.login) && !Skipped(r.createdAt, p.lastActiveAt) then
      Credit(Classify(r.content), GiverWeight(ps, r))
    else NoTally
  }

  /** The loop at data.py:388-421 over the reactions `p` received. */
  function Received(rs: Dict<string, Reaction>, p: Participant, ps: Dict<string, Participant>): (t: Tally)
    ensures 0 <= t.pos && 0 <= t.neg && t.pos + t.neg <= |rs|
    ensures WeightsBounded(ps) ==>
      0.0 <= t.weightedPos <= t.pos as real && 0.0 <= t.weightedNeg <= t.neg as real
  {
    if rs == [] then NoTally
    else
      var rest := Received(rs[1..], p, ps);
      GiverWeightBounded(ps, rs[0].1);
      Plus(ReceivedStep(rs[0].1, p, ps), rest)
  }

  /** The loop at data.py:424-445 over the reactions `p` gave. */
  function Given(rs: Dict<string, Reaction>, p: Participant): (c: Counts)
    ensures 0 <= c.up && 0 <= c.down && c.up + c.down <= |rs|
  {
    if rs == [] then Counts(0, 0)
    else
      var r := rs[0].1;
      var rest := Given(rs[1..], p);
      if r.giver == Some(p.login) && !Skipped(r.createdAt, p.lastActiveAt) then
        match Classify(r.content)
        case Positive => Counts(rest.up + 1, rest.down)
        case Negative => Counts(rest.up, rest.down + 1)
        case Ignored => rest
      else rest
  }

  /** The reaction is counted for its receiver, judged by the receiver's checkpoint. */
  predicate CountedForReceiver(r: Reaction, ps: Dict<string, Participant>)
  {
    r.receiver.Some? && Get(ps, r.receiver.value).Some?
    && !Skipped(r.createdAt, Get(ps, r.receiver.value).value.lastActiveAt)
  }

  /** The contribution of one reaction to the tally of comment `cid`. */
  function OnCommentStep(r: Reaction, cid: string, ps: Dict<string, Participant>): Tally
  {
    if r.review == cid && CountedForReceiver(r, ps) then Credit(Classify(r.content), GiverWeight(ps, r)) else NoTally
  }

  lemma PlusAssoc(x: Tally, y: Tally, z: Tally)
    ensures Plus(x, Plus(y, z)) == Plus(Plus(x, y), z)
  {
  }

  /** The updates of `reaction.review` at data.py:407-418, gathered for comment `cid`. */
  function OnComment(rs: Dict<string, Reaction>, cid: string, ps: Dict<string, Participant>): (t: Tally)
    ensures 0 <= t.pos && 0 <= t.neg
    ensures WeightsBounded(ps) ==>
      0.0 <= t.weightedPos <= t.pos as real && 0.0 <= t.weightedNeg <= t.neg as real
  {
    if rs == [] then NoTally
    else
      var r := rs[0].1;
      var rest := OnComment(rs[1..], cid, ps);
      GiverWeightBounded(ps, r);
      Plus(OnCommentStep(r, cid, ps), rest)
  }

  /** The counter and score update at data.py:448-466. */
  function Score(p: Participant, t: Tally, g: Counts): Participant
  {
    p.(posIn := p.posIn + t.pos,
       weightedPosIn := p.weightedPosIn + t.weightedPos,
       posOut := p.posOut + g.up,
       negIn := p.negIn + t.neg,
       weightedNegIn := p.weightedNegIn + t.weightedNeg,
       negOut := p.negOut + g.down,
       score := p.score + (t.weightedPos - t.weightedNeg + C1 * g.up as real + C2 * g.down as real))
  }

  function ScoreComment(c: Comment, t: Tally): Comment
  {
    c.(pos := c.pos + t.pos,
       weightedPos := c.weightedPos + t.weightedPos,
       neg := c.neg + t.neg,
       weightedNeg := c.weightedNeg + t.weightedNeg,
       score := c.score + t.weightedPos - t.weightedNeg)
  }

  /** Every reaction the run counts for its receiver has a giver
      (`reaction.giver` is not `None` at data.py:400). */
  predicate GiversKnown(ps: Dict<string, Participant>, rs: Dict<string, Reaction>)
  {
    forall e :: e in rs && CountedForReceiver(e.1, ps) ==>
      e.1.giver.Some? && e.1.giver.value in Keys(ps)
  }

  /** The first counted reaction, in table order, without a giver. */
  function GiverFailure(ps: Dict<string, Participant>, rs: Dict<string, Reaction>): (r: Option<Error>)
    ensures r.None? <==> GiversKnown(ps, rs)
    ensures r.Some? ==> r.value.MissingGiver?
  {
    if rs == [] then None
    else
      assert forall e :: e in rs <==> e == rs[0] || e in rs[1..];
      var q := rs[0].1;
      if CountedForReceiver(q, ps) && !(q.giver.Some? && q.giver.value in Keys(ps)) then Some(Error.MissingGiver(q.id))
      else GiverFailure(ps, rs[1..])
  }

  /** How one participant comes out of the score pass: the score moves by
      exactly the weighted in-counters' growth plus the bonuses for reactions
      given; the counters grow by what the reactions newer than the checkpoint
      add; nothing else changes. */
  predicate Scored(s: Store, p: Participant, q: Participant)
  {
    && q == p.(score := q.score, posIn := q.posIn, weightedPosIn := q.weightedPosIn, posOut := q.posOut,
               negIn := q.negIn, weightedNegIn := q.weightedNegIn, negOut := q.negOut)
    && q.score - p.score
         == (q.weightedPosIn - p.weightedPosIn) - (q.weightedNegIn - p.weightedNegIn)
            + C1 * (q.posOut - p.posOut) as real + C2 * (q.negOut - p.negOut) as real
    && q.posIn - p.posIn == Received(s.reactions, p, s.participants).pos
    && q.negIn - p.negIn == Received(s.reactions, p, s.participants).neg
    && q.weightedPosIn - p.weightedPosIn == Received(s.reactions, p, s.participants).weightedPos
    && q.weightedNegIn - p.weightedNegIn == Received(s.reactions, p, s.participants).weightedNeg
    && q.posOut - p.posOut == Given(s.reactions, p).up
    && q.negOut - p.negOut == Given(s.reactions, p).down
    && 0 <= q.posIn - p.posIn && 0 <= q.negIn - p.negIn && 0 <= q.posOut - p.posOut && 0 <= q.negOut - p.negOut
    && (WeightsBounded(s.participants) ==>
          0.0 <= q.weightedPosIn - p.weightedPosIn <= (q.posIn - p.posIn) as real
          && 0.0 <= q.weightedNegIn - p.weightedNegIn <= (q.negIn - p.negIn) as real)
  }

  /** How one review comment comes out of the score pass. */
  predicate CommentScored(s: Store, c: Comment, d: Comment)
  {
    && d == c.(score := d.score, pos := d.pos, neg := d.neg, weightedPos := d.weightedPos, weightedNeg := d.weightedNeg)
    && d.score - c.score == (d.weightedPos - c.weightedPos) - (d.weightedNeg - c.weightedNeg)
    && d.pos - c.pos == OnComment(s.reactions, c.id, s.participants).pos
    && d.weightedPos - c.weightedPos == OnComment(s.reactions, c.id, s.participants).weightedPos
    && d.neg - c.neg == OnComment(s.reactions, c.id, s.participants).neg
    && d.weightedNeg - c.weightedNeg == OnComment(s.reactions, c.id, s.participants).weightedNeg
    && 0 <= d.pos - c.pos && 0 <= d.neg - c.neg
  }

  /** One pass of `__update_score` over every participant and every review
      comment. All weights and checkpoints are the ones the run started with. */
  function UpdateScores(s: Store): (r: Store)
    requires ParticipantsKeyed(s.participants)
    requires GiversKnown(s.participants, s.reactions)
    ensures r.reactions == s.reactions
    ensures |r.participants| == |s.participants| && Keys(r.participants) == Keys(s.participants)
    ensures ParticipantsKeyed(r.participants)
    ensures forall i :: 0 <= i < |s.participants| ==>
      r.participants[i].0 == s.participants[i].0 && Scored(s, s.participants[i].1, r.participants[i].1)
    ensures |r.comments| == |s.comments| && Keys(r.comments) == Keys(s.comments)
    ensures UniqueKeys(s.comments) ==> UniqueKeys(r.comments)
    ensures forall i :: 0 <= i < |s.comments| ==>
      r.comments[i].0 == s.comments[i].0 && CommentScored(s, s.comments[i].1, r.comments[i].1)
  {
    var ps := MapValues(s.participants,
      (p: Participant) => Score(p, Received(s.reactions, p, s.participants), Given(s.reactions, p)));
    var cs := MapValues(s.comments,
      (c: Comment) => ScoreComment(c, OnComment(s.reactions, c.id, s.participants)));
    ScoredAll(s, ps);
    CommentsScoredAll(s, cs);
    Store(ps, cs, s.reactions)
  }

  lemma ScoredAll(s: Store, ps: Dict<string, Participant>)
    requires |ps| == |s.participants|
    requires forall i :: 0 <= i < |ps| ==>
      ps[i] == (s.participants[i].0, Score(s.participants[i].1, Received(s.reactions, s.participants[i].1, s.participants), Given(s.reactions, s.participants[i].1)))
    ensures forall i :: 0 <= i < |ps| ==> Scored(s, s.participants[i].1, ps[i].1)
  {
    forall i | 0 <= i < |ps| ensures Scored(s, s.participants[i].1, ps[i].1) {
      ScoredOne(s, s.participants[i].1);
    }
  }

  lemma ScoredOne(s: Store, p: Participant)
    ensures Scored(s, p, Score(p, Received(s.reactions, p, s.participants), Given(s.reactions, p)))
  {
  }

  lemma CommentsScoredAll(s: Store, cs: Dict<string, Comment>)
    requires |cs| == |s.comments|
    requires forall i :: 0 <= i < |cs| ==>
      cs[i] == (s.comments[i].0, ScoreComment(s.comments[i].1, OnComment(s.reactions, s.comments[i].1.id, s.participants)))
    ensures forall i :: 0 <= i < |cs| ==> CommentScored(s, s.comments[i].1, cs[i].1)
  {
  }

  /** The folds distribute over a split of the reaction table. */
  lemma {:induction false} ReceivedAppend(a: Dict<string, Reaction>, b: Dict<string, Reaction>, p: Participant, ps: Dict<string, Participant>)
    ensures Received(a + b, p, ps) == Plus(Received(a, p, ps), Received(b, p, ps))
  {
    if a == [] {
      assert a + b == b;
    } else {
      assert (a + b)[0] == a[0] && (a + b)[1..] == a[1..] + b;
      var x := ReceivedStep(a[0].1, p, ps);
      ReceivedAppend(a[1..], b, p, ps);
      calc {
        Received(a + b, p, ps);
        Plus(x, Received(a[1..] + b, p, ps));
        Plus(x, Plus(Received(a[1..], p, ps), Received(b, p, ps)));
        { PlusAssoc(x, Received(a[1..], p, ps), Received(b, p, ps)); }
        Plus(Plus(x, Received(a[1..], p, ps)), Received(b, p, ps));
      }
    }
  }

  lemma {:induction false} GivenAppend(a: Dict<string, Reaction>, b: Dict<string, Reaction>, p: Participant)
    ensures Given(a + b, p).up == Given(a, p).up + Given(b, p).up
    ensures Given(a + b, p).down == Given(a, p).down + Given(b, p).down
  {
    if a == [] {
      assert a + b == b;
    } else {
      assert (a + b)[1..] == a[1..] + b;
      GivenAppend(a[1..], b, p);
    }
  }

  lemma {:induction false} OnCommentAppend(a: Dict<string, Reaction>, b: Dict<string, Reaction>, cid: string, ps: Dict<string, Participant>)
    ensures OnComment(a + b, cid, ps) == Plus(OnComment(a, cid, ps), OnComment(b, cid, ps))
  {
    if a == [] {
      assert a + b == b;
    } else {
      assert (a + b)[0] == a[0] && (a + b)[1..] == a[1..] + b;
      var x := OnCommentStep(a[0].1, cid, ps);
      OnCommentAppend(a[1..], b, cid, ps);
      calc {
        OnComment(a + b, cid, ps);
        Plus(x, OnComment(a[1..] + b, cid, ps));
        Plus(x, Plus(OnComment(a[1..], cid, ps), OnComment(b, cid, ps)));
        { PlusAssoc(x, OnComment(a[1..], cid, ps), OnComment(b, cid, ps)); }
        Plus(Plus(x, OnComment(a[1..], cid, ps)), OnComment(b, cid, ps));
      }
    }
  }

  /** Appending one reaction adds its own contribution. */
  lemma ReceivedSnoc(rs: Dict<string, Reaction>, k: string, r: Reaction, p: Participant, ps: Dict<string, Participant>)
    ensures Received(rs + [(k, r)], p, ps) == Plus(Received(rs, p, ps), ReceivedStep(r, p, ps))
  {
    ReceivedSingle(k, r, p, ps);
    ReceivedAppend(rs, [(k, r)], p, ps);
  }

  lemma ReceivedSingle(k: string, r: Reaction, p: Participant, ps: Dict<string, Participant>)
    ensures Received([(k, r)], p, ps) == ReceivedStep(r, p, ps)
  {
    var one := [(k, r)];
    assert Received(one, p, ps) == Plus(ReceivedStep(one[0].1, p, ps), Received(one[1..], p, ps));
    assert one[1..] == [];
    PlusNone(ReceivedStep(r, p, ps));
  }

  lemma PlusNone(t: Tally)
    ensures Plus(t, NoTally) == t
  {
  }

  lemma OnCommentSnoc(rs: Dict<string, Reaction>, k: string, r: Reaction, cid: string, ps: Dict<string, Participant>)
    ensures OnComment(rs + [(k, r)], cid, ps) == Plus(OnComment(rs, cid, ps), OnCommentStep(r, cid, ps))
  {
    OnCommentSingle(k, r, cid, ps);
    OnCommentAppend(rs, [(k, r)], cid, ps);
  }

  lemma OnCommentSingle(k: string, r: Reaction, cid: string, ps: Dict<string, Participant>)
    ensures OnComment([(k, r)], cid, ps) == OnCommentStep(r, cid, ps)
  {
    var one := [(k, r)];
    assert OnComment(one, cid, ps) == Plus(OnCommentStep(one[0].1, cid, ps), OnComment(one[1..], cid, ps));
    assert one[1..] == [];
    PlusNone(OnCommentStep(r, cid, ps));
  }

  /** A reaction strictly older than the participant's checkpoint changes
      none of their tallies, nor the tally of the comment it targets. */
  lemma SkippedReactionIgnored(rs: Dict<string, Reaction>, k: string, r: Reaction, p: Participant, ps: Dict<string, Participant>)
    requires p.lastActiveAt.Some? && r.createdAt < p.lastActiveAt.value
    requires r.receiver == Some(p.login) ==> Get(ps, p.login) == Some(p)
    ensures Received(rs + [(k, r)], p, ps) == Received(rs, p, ps)
    ensures Given(rs + [(k, r)], p) == Given(rs, p)
    ensures r.receiver == Some(p.login) ==> OnComment(rs + [(k, r)], r.review, ps) == OnComment(rs, r.review, ps)
  {
    ReceivedSnoc(rs, k, r, p, ps);
    PlusNone(Received(rs, p, ps));
    GivenSkipped(k, r, p);
    GivenAppend(rs, [(k, r)], p);
    OnCommentSnoc(rs, k, r, r.review, ps);
    PlusNone(OnComment(rs, r.review, ps));
  }

  lemma GivenSkipped(k: string, r: Reaction, p: Participant)
    requires r.giver != Some(p.login) || (p.lastActiveAt.Some? && r.createdAt < p.lastActiveAt.value)
    ensures Given([(k, r)], p) == Counts(0, 0)
  {
    var one := [(k, r)];
    assert one[0].1 == r && one[1..] == [];
  }

  /** A received reaction at or after the checkpoint, or any received reaction
      when there is no checkpoint, adds its giver's weight to P1 or N1 and the
      same weight to its comment. */
  lemma CountedReactionCredited(rs: Dict<string, Reaction>, k: string, r: Reaction, p: Participant, ps: Dict<string, Participant>)
    requires r.receiver == Some(p.login) && Get(ps, p.login) == Some(p)
    requires p.lastActiveAt.None? || p.lastActiveAt.value <= r.createdAt
    ensures Received(rs + [(k, r)], p, ps) == Plus(Received(rs, p, ps), Credit(Classify(r.content), GiverWeight(ps, r)))
    ensures OnComment(rs + [(k, r)], r.review, ps) == Plus(OnComment(rs, r.review, ps), Credit(Classify(r.content), GiverWeight(ps, r)))
  {
    ReceivedSnoc(rs, k, r, p, ps);
    OnCommentSnoc(rs, k, r, r.review, ps);
  }

  /** A reaction `p` gave at or after their checkpoint, or any one they gave
      when there is no checkpoint, adds one to P2 when it is a THUMBS_UP, one
      to N2 when it is a THUMBS_DOWN, and nothing otherwise. */
  lemma GivenCounted(rs: Dict<string, Reaction>, k: string, r: Reaction, p: Participant)
    requires r.giver == Some(p.login)
    requires p.lastActiveAt.None? || p.lastActiveAt.value <= r.createdAt
    ensures var before, after := Given(rs, p), Given(rs + [(k, r)], p);
      match Classify(r.content)
      case Positive => after == Counts(before.up + 1, before.down)
      case Negative => after == Counts(before.up, before.down + 1)
      case Ignored => after == before
  {
    var one := [(k, r)];
    assert one[0].1 == r && one[1..] == [];
    GivenAppend(rs, one, p);
  }

  /** A counted THUMBS_UP on comment `cid` gives the comment a positive tally. */
  lemma {:induction false} CountedPositiveTallied(rs: Dict<string, Reaction>, cid: string, ps: Dict<string, Participant>, e: (string, Reaction))
    requires e in rs && e.1.review == cid && CountedForReceiver(e.1, ps) && Classify(e.1.content) == Positive
    ensures OnComment(rs, cid, ps).pos >= 1
  {
    if rs[0] != e {
      assert e in rs[1..];
      CountedPositiveTallied(rs[1..], cid, ps, e);
    }
  }

  /** `__update_score` as written, seen from the store: the comment tallies of
      data.py:407-418 go to comment objects fetched through each reaction and
      never saved, so the comment table keeps the tallies it had. */
  function UpdateScoresAsWritten(s: Store): Store
    requires ParticipantsKeyed(s.participants)
    requires GiversKnown(s.participants, s.reactions)
  {
    Store(UpdateScores(s).participants, s.comments, s.reactions)
  }

  /** A counted THUMBS_UP on a comment leaves its stored tally unchanged as
      written, while the intended update raises it. */
  lemma CommentTallyLost(s: Store, i: int, e: (string, Reaction))
    requires ParticipantsKeyed(s.participants)
    requires GiversKnown(s.participants, s.reactions)
    requires 0 <= i < |s.comments|
    requires e in s.reactions && e.1.review == s.comments[i].1.id
    requires CountedForReceiver(e.1, s.participants) && Classify(e.1.content) == Positive
    ensures UpdateScoresAsWritten(s).comments[i] == s.comments[i]
    ensures UpdateScores(s).comments[i].1.pos > s.comments[i].1.pos
  {
    CountedPositiveTallied(s.reactions, s.comments[i].1.id, s.participants, e);
  }

  /** When every reaction on comment `cid` was received by `p`, and `p`
      received reactions on no other comment, the comment's tally equals `p`'s. */
  lemma {:induction false} CommentMirrorsReceiver(rs: Dict<string, Reaction>, cid: string, p: Participant, ps: Dict<string, Participant>)
    requires Get(ps, p.login) == Some(p)
    requires forall e :: e in rs ==> (e.1.review == cid <==> e.1.receiver == Some(p.login))
    ensures OnComment(rs, cid, ps) == Received(rs, p, ps)
  {
    if rs != [] {
      assert rs[0] in rs;
      CommentMirrorsReceiver(rs[1..], cid, p, ps);
    }
  }

  /** The worked example: a participant with checkpoint 100 receives a
      THUMBS_UP from a giver of weight 0.5 at 101 and a THUMBS_DOWN from a giver
      of weight 0.3 at 102. P1 = 0.5 and N1 = 0.3, pos_in and neg_in grow by
      one and the score by 0.2. */
  lemma ScoreExample(p: Participant, ps: Dict<string, Participant>, r1: Reaction, r2: Reaction)
    requires p.lastActiveAt == Some(100)
    requires r1.createdAt == 101 && r1.content == ThumbsUp && r1.receiver == Some(p.login)
    requires r2.createdAt == 102 && r2.content == ThumbsDown && r2.receiver == Some(p.login)
    requires r1.giver.Some? && r1.giver != Some(p.login) && Get(ps, r1.giver.value).Some?
    requires r2.giver.Some? && r2.giver != Some(p.login) && Get(ps, r2.giver.value).Some?
    requires Get(ps, r1.giver.value).value.weightFactor == 0.5
    requires Get(ps, r2.giver.value).value.weightFactor == 0.3
    ensures
      var q := Score(p, Received([(r1.id, r1), (r2.id, r2)], p, ps), Given([(r1.id, r1), (r2.id, r2)], p));
      && q.score == p.score + 0.2
      && q.posIn == p.posIn + 1 && q.negIn == p.negIn + 1
      && q.weightedPosIn == p.weightedPosIn + 0.5 && q.weightedNegIn == p.weightedNegIn + 0.3
      && q.posOut == p.posOut && q.negOut == p.negOut
  {
    var rs := [(r1.id, r1), (r2.id, r2)];
    assert [(r1.id, r1)] + [(r2.id, r2)] == rs;
    ClassifyExamples();
    assert ReceivedStep(r1, p, ps) == Tally(1, 0, 0.5, 0.0);
    assert ReceivedStep(r2, p, ps) == Tally(0, 1, 0.0, 0.3);
    ReceivedSingle(r1.id, r1, p, ps);
    ReceivedSnoc([(r1.id, r1)], r2.id, r2, p, ps);
    assert Received(rs, p, ps) == Tally(1, 1, 0.5, 0.3);
    GivenSkipped(r1.id, r1, p);
    GivenSkipped(r2.id, r2, p);
    GivenAppend([(r1.id, r1)], [(r2.id, r2)], p);
    assert Given(rs, p) == Counts(0, 0);
    ScoreOfExample(p);
  }

  lemma ScoreOfExample(p: Participant)
    ensures
      var q := Score(p, Tally(1, 1, 0.5, 0.3), Counts(0, 0));
      && q.score == p.score + 0.2
      && q.posIn == p.posIn + 1 && q.negIn == p.negIn + 1
      && q.weightedPosIn == p.weightedPosIn + 0.5 && q.weightedNegIn == p.weightedNegIn + 0.3
      && q.posOut == p.posOut && q.negOut == p.negOut
  {
  }
}
