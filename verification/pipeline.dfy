/**
 * One run of the meta-review system (`MetaReviewHandler.handle`): load
 * participants, comments and reactions from the feed into the store, then
 * update scores, ranks, weight factors and checkpoints, in that order.
 */
module Pipeline {
  import opened Wrappers
  import opened Dict
  import opened Normalizer
  import opened Entities
  import opened Punishment
  import opened Loader
  import opened Scoring
  import opened Ranking
  import opened Weights
  import opened Activity

  /** The normalised feed is keyed as the loaders expect: comments by id,
      reactions by id, participants by login. */
  predicate Indexed(n: Normalised)
  {
    && UniqueKeys(n.comments) && (forall e :: e in n.comments ==> e.0 == e.1.id)
    && UniqueKeys(n.reactions) && (forall e :: e in n.reactions ==> e.0 == e.1.raw.id)
    && UniqueKeys(n.participants) && (forall e :: e in n.participants ==> e.0 == e.1.login)
  }

  /** Every login the feed names is registered and every reaction points at a
      comment of the feed. */
  predicate Covered(n: Normalised)
  {
    && (forall e :: e in n.comments && e.1.author.login != "" ==> e.1.author.login in Keys(n.participants))
    && (forall e :: e in n.reactions ==>
          && e.1.commentId in Keys(n.comments)
          && (e.1.raw.user.login != "" ==> e.1.raw.user.login in Keys(n.participants))
          && (e.1.receiverLogin != "" ==> e.1.receiverLogin in Keys(n.participants)))
  }

  /** The normaliser produces an indexed, covered feed. */
  lemma NormaliseIndexed(issues: seq<Issue>)
    ensures Indexed(Normalise(issues)) && Covered(Normalise(issues))
  {
    var n := Normalise(issues);
    ReactionsStamped(issues);
    ReactionLoginsRegistered(issues);
    forall e | e in n.comments && e.1.author.login != ""
      ensures e.1.author.login in Keys(n.participants)
    {
      assert Mentions(e.1, e.1.author.login);
    }
    forall e | e in n.reactions ensures e.1.commentId in Keys(n.comments) {
      assert Get(n.comments, e.1.commentId).Some?;
    }
  }

  /** Every stored comment gets past the loop at data.py:241-252. */
  predicate CommentsPass(store: Store, n: Normalised)
  {
    forall i :: 0 <= i < |store.comments| ==> CommentPasses(store.comments[i].1, n.comments, store.reactions)
  }

  /** Stored comment `i` is the first, in store order, that the loop at
      data.py:241-252 does not get past. */
  predicate FirstFailing(store: Store, n: Normalised, i: int)
  {
    && 0 <= i < |store.comments|
    && (forall j :: 0 <= j < i ==> CommentPasses(store.comments[j].1, n.comments, store.reactions))
    && !CommentPasses(store.comments[i].1, n.comments, store.reactions)
  }

  /** A comment the store does not hold yet always gets past the loop: no
      stored reaction reviews it, so it never needs punishing. */
  lemma NewCommentsPass(store: Store, feed: Dict<string, RawComment>)
    requires WellFormed(store)
    ensures forall e :: e in NewComments(store.comments, feed) ==> CommentPasses(e.1, feed, store.reactions)
  {
    forall e | e in NewComments(store.comments, feed)
      ensures CommentPasses(e.1, feed, store.reactions)
    {
      assert e.0 in Keys(NewComments(store.comments, feed));
      var c := RefreshFrom(feed, e.1);
      NeedsPunishmentExactly(c, store.reactions);
    }
  }

  /** The comment stage fails exactly when a stored comment does not get past
      the loop, and then on the first such comment. */
  lemma CommentsChecked(store: Store, n: Normalised)
    requires WellFormed(store)
    ensures var f := CommentFailure(store.comments + NewComments(store.comments, n.comments), n.comments, store.reactions);
      && (f.None? <==> CommentsPass(store, n))
      && (f.Some? ==> exists i :: FirstFailing(store, n, i) && f.value == CommentError(store.comments[i].1, n.comments))
  {
    NewCommentsPass(store, n.comments);
    FailureInStored(store.comments, NewComments(store.comments, n.comments), n.comments, store.reactions);
  }

  /** When every appended comment passes, the first failure of the whole table
      lies among the leading ones. */
  lemma FailureInStored(stored: Dict<string, Comment>, added: Dict<string, Comment>,
                        feed: Dict<string, RawComment>, reactions: Dict<string, Reaction>)
    requires forall e :: e in added ==> CommentPasses(e.1, feed, reactions)
    ensures var f := CommentFailure(stored + added, feed, reactions);
      && (f.None? <==> forall i :: 0 <= i < |stored| ==> CommentPasses(stored[i].1, feed, reactions))
      && (f.Some? ==> exists i :: && 0 <= i < |stored|
                                  && (forall j :: 0 <= j < i ==> CommentPasses(stored[j].1, feed, reactions))
                                  && !CommentPasses(stored[i].1, feed, reactions)
                                  && f.value == CommentError(stored[i].1, feed))
  {
    var table := stored + added;
    forall i | |stored| <= i < |table| ensures CommentPasses(table[i].1, feed, reactions) {
      assert table[i] == added[i - |stored|];
    }
    assert forall i :: 0 <= i < |stored| ==> table[i] == stored[i];
  }

  /** The loading stages at data.py:98-109: participants, then comments
      (punishing late edits against the reactions stored so far), then
      reactions. */
  function Load(store: Store, n: Normalised, initialWeight: real): (r: Result<Store, Error>)
    requires WellFormed(store) && Indexed(n)
    ensures !(Keys(store.comments) <= Keys(n.comments)) ==> r.Failure?
    ensures r.Failure? && Covered(n) ==> r.error.MissingFeedComment? || r.error.AuthorlessEdit?
    ensures r.Success? ==>
      && Keys(r.value.participants) == Keys(n.participants) + Keys(store.participants)
      && Keys(r.value.comments) == Keys(n.comments)
      && Keys(r.value.reactions) == Keys(store.reactions) + Keys(n.reactions)
      && (forall l :: l in Keys(store.participants) ==>
            Get(r.value.participants, l).value.lastActiveAt == Get(store.participants, l).value.lastActiveAt)
    ensures r.Success? && Covered(n) ==> WellFormed(r.value)
    ensures r.Success? ==> LoadedAs(store, n, initialWeight, r.value)
    ensures Covered(n) ==> (r.Success? <==> CommentsPass(store, n))
    ensures Covered(n) && r.Failure? ==>
      exists i :: FirstFailing(store, n, i) && r.error == CommentError(store.comments[i].1, n.comments)
  {
    CommentsChecked(store, n);
    var ps := LoadParticipants(store.participants, n.participants, initialWeight);
    match LoadComments(store.comments, n.comments, ps, store.reactions)
    case Failure(err) => Failure(err)
    case Success(loaded) =>
      PunishedKeepsCheckpoints(store, n, initialWeight, loaded.0);
      ResolvedWhenCovered(n, loaded.1);
      match LoadReactions(store.reactions, n.reactions, loaded.1)
      case Failure(err) => Failure(err)
      case Success(rs) =>
        LoadedWellFormed(store, n, initialWeight, loaded.0, loaded.1, rs);
        LoadedContents(store, n, initialWeight, loaded.0, loaded.1, rs);
        Success(Store(loaded.1, loaded.0, rs))
  }

  /** Loading participants and punishing them keeps every stored checkpoint. */
  lemma PunishedKeepsCheckpoints(store: Store, n: Normalised, initialWeight: real, cs: Dict<string, Comment>)
    requires WellFormed(store) && Indexed(n)
    ensures var ps := Punish(LoadParticipants(store.participants, n.participants, initialWeight), cs, store.reactions);
      forall l :: l in Keys(store.participants) ==>
        l in Keys(ps) && Get(ps, l).value.lastActiveAt == Get(store.participants, l).value.lastActiveAt
  {
    var loaded := LoadParticipants(store.participants, n.participants, initialWeight);
    forall l | l in Keys(store.participants)
      ensures Get(loaded, l).Some? && Get(loaded, l).value.lastActiveAt == Get(store.participants, l).value.lastActiveAt
    {
    }
    forall l | l in Keys(store.participants)
      ensures var ps := Punish(loaded, cs, store.reactions);
        l in Keys(ps) && Get(ps, l).value.lastActiveAt == Get(loaded, l).value.lastActiveAt
    {
      PunishGet(loaded, cs, store.reactions, l);
    }
  }

  /** Punishment changes only score and punishment of the participant a login
      looks up. */
  lemma PunishGet(ps: Dict<string, Participant>, cs: Dict<string, Comment>, rs: Dict<string, Reaction>, l: string)
    requires UniqueKeys(ps) && l in Keys(ps)
    ensures var q := Punish(ps, cs, rs);
      && l in Keys(q)
      && Get(q, l).value == Get(ps, l).value.(score := Get(q, l).value.score, punishment := Get(q, l).value.punishment)
  {
    var q := Punish(ps, cs, rs);
    var i := KeyIndex(ps, l);
    IndexGet(ps, i);
    IndexGet(q, i);
  }

  /** With a covered feed, every login a feed reaction names is loaded. */
  lemma ResolvedWhenCovered(n: Normalised, ps: Dict<string, Participant>)
    requires Keys(n.participants) <= Keys(ps)
    ensures Covered(n) ==> forall e :: e in n.reactions ==> !UnknownLogin(e.1, ps)
  {
  }

  /** The loaded store keeps the foreign keys when the feed is covered. */
  lemma LoadedWellFormed(store: Store, n: Normalised, initialWeight: real,
                         cs: Dict<string, Comment>, ps: Dict<string, Participant>, rs: Dict<string, Reaction>)
    requires WellFormed(store) && Indexed(n)
    requires LoadComments(store.comments, n.comments, LoadParticipants(store.participants, n.participants, initialWeight), store.reactions)
             == Success((cs, ps))
    requires LoadReactions(store.reactions, n.reactions, ps) == Success(rs)
    ensures Covered(n) ==> WellFormed(Store(ps, cs, rs))
  {
    if Covered(n) {
      LoadedAuthorsKnown(store, n, initialWeight, cs, ps);
      LoadedReviewsKnown(store, n, initialWeight, cs, ps, rs);
    }
  }

  /** The participant loading puts under login `l` before punishment
      (data.py:164-196): the stored one under the feed's name, a fresh one for a
      login only the feed knows, and the stored one as is for a login the feed
      omits. */
  function LoadedBase(store: Store, n: Normalised, initialWeight: real, l: string): Participant
    requires l in Keys(n.participants) + Keys(store.participants)
  {
    if l in Keys(n.participants) then
      var name := Get(n.participants, l).value.name;
      if l in Keys(store.participants) then Get(store.participants, l).value.(name := name)
      else Fresh(l, name, initialWeight)
    else Get(store.participants, l).value
  }

  /** The comment loading puts under id `k` (data.py:230-249): the stored one,
      or a blank one for a new id, refreshed from the feed. */
  function LoadedComment(store: Store, n: Normalised, k: string): Comment
    requires k in Keys(n.comments)
  {
    var base := if k in Keys(store.comments) then Get(store.comments, k).value else Blank(k);
    Refresh(base, Get(n.comments, k).value)
  }

  /** The reaction under id `k` after loading (data.py:261-299): attached from
      the feed when the feed carries it, else as stored. */
  function LoadedReaction(store: Store, n: Normalised, k: string): Option<Reaction>
  {
    if k in Keys(n.reactions) then Some(AttachReaction(store.reactions, Get(n.reactions, k).value))
    else Get(store.reactions, k)
  }

  /** What the loaded store holds: each participant is its loaded base lowered
      by the penalties for its offending comments (data.py:137-152), each
      comment is refreshed, each reaction attached. */
  ghost predicate LoadedAs(store: Store, n: Normalised, initialWeight: real, s: Store)
  {
    && ParticipantsLoadedAs(store, n, initialWeight, s.participants, s.comments)
    && CommentsLoadedAs(store, n, s.comments)
    && ReactionsLoadedAs(store, n, s.reactions)
  }

  predicate ParticipantsLoadedAs(store: Store, n: Normalised, initialWeight: real,
                                 ps: Dict<string, Participant>, cs: Dict<string, Comment>)
  {
    forall l :: l in Keys(ps) ==>
      && l in Keys(n.participants) + Keys(store.participants)
      && Get(ps, l) == Some(Penalise(LoadedBase(store, n, initialWeight, l), Offences(l, cs, store.reactions)))
  }

  predicate CommentsLoadedAs(store: Store, n: Normalised, cs: Dict<string, Comment>)
  {
    forall k :: k in Keys(cs) ==> k in Keys(n.comments) && Get(cs, k) == Some(LoadedComment(store, n, k))
  }

  ghost predicate ReactionsLoadedAs(store: Store, n: Normalised, rs: Dict<string, Reaction>)
  {
    forall k :: Get(rs, k) == LoadedReaction(store, n, k)
  }

  /** The comment stage succeeded with comments `cs` and participants `ps`. */
  predicate CommentsLoaded(store: Store, n: Normalised, initialWeight: real,
                           cs: Dict<string, Comment>, ps: Dict<string, Participant>)
  {
    && WellFormed(store) && Indexed(n)
    && LoadComments(store.comments, n.comments, LoadParticipants(store.participants, n.participants, initialWeight), store.reactions)
       == Success((cs, ps))
  }

  /** The loaded participants, comments and reactions are those the three
      loading stages promise. */
  lemma LoadedContents(store: Store, n: Normalised, initialWeight: real,
                       cs: Dict<string, Comment>, ps: Dict<string, Participant>, rs: Dict<string, Reaction>)
    requires CommentsLoaded(store, n, initialWeight, cs, ps)
    requires LoadReactions(store.reactions, n.reactions, ps) == Success(rs)
    ensures LoadedAs(store, n, initialWeight, Store(ps, cs, rs))
  {
    LoadedParticipantsAre(store, n, initialWeight, cs, ps);
    LoadedCommentsAre(store, n, initialWeight, cs, ps);
    LoadedReactionsAre(store, n, ps, rs);
  }

  lemma LoadedReactionsAre(store: Store, n: Normalised, ps: Dict<string, Participant>, rs: Dict<string, Reaction>)
    requires UniqueKeys(store.reactions) && forall e :: e in store.reactions ==> e.0 == e.1.id
    requires UniqueKeys(n.reactions) && forall e :: e in n.reactions ==> e.0 == e.1.raw.id
    requires LoadReactions(store.reactions, n.reactions, ps) == Success(rs)
    ensures ReactionsLoadedAs(store, n, rs)
  {
    forall k ensures Get(rs, k) == LoadedReaction(store, n, k) {
      if k in Keys(n.reactions) {
        GetEntry(rs, k, Get(rs, k).value);
      }
    }
  }

  lemma LoadedParticipantsAre(store: Store, n: Normalised, initialWeight: real,
                              cs: Dict<string, Comment>, ps: Dict<string, Participant>)
    requires CommentsLoaded(store, n, initialWeight, cs, ps)
    ensures ParticipantsLoadedAs(store, n, initialWeight, ps, cs)
  {
    var loaded := LoadParticipants(store.participants, n.participants, initialWeight);
    forall l | l in Keys(ps)
      ensures && l in Keys(n.participants) + Keys(store.participants)
              && Get(ps, l) == Some(Penalise(LoadedBase(store, n, initialWeight, l), Offences(l, cs, store.reactions)))
    {
      assert Get(loaded, l) == Some(LoadedBase(store, n, initialWeight, l));
      PunishedAt(loaded, cs, store.reactions, l);
    }
  }

  /** Punishing finds the participant a login looks up lowered by that login's
      penalties. */
  lemma PunishedAt(ps: Dict<string, Participant>, cs: Dict<string, Comment>, rs: Dict<string, Reaction>, l: string)
    requires ParticipantsKeyed(ps) && l in Keys(ps)
    ensures Get(Punish(ps, cs, rs), l) == Some(Penalise(Get(ps, l).value, Offences(l, cs, rs)))
  {
    GetMapValues(ps, (p: Participant) => Penalise(p, Offences(p.login, cs, rs)), l);
    assert (l, Get(ps, l).value) in ps;
  }

  lemma LoadedCommentsAre(store: Store, n: Normalised, initialWeight: real,
                          cs: Dict<string, Comment>, ps: Dict<string, Participant>)
    requires CommentsLoaded(store, n, initialWeight, cs, ps)
    ensures CommentsLoadedAs(store, n, cs)
  {
    forall k | k in Keys(cs) ensures k in Keys(n.comments) && Get(cs, k) == Some(LoadedComment(store, n, k)) {
      var c := Get(cs, k).value;
      assert (k, c) in cs;
    }
  }

  /** Every author of a loaded comment is a loaded participant. */
  lemma LoadedAuthorsKnown(store: Store, n: Normalised, initialWeight: real, cs: Dict<string, Comment>, ps: Dict<string, Participant>)
    requires WellFormed(store) && Indexed(n) && Covered(n)
    requires LoadComments(store.comments, n.comments, LoadParticipants(store.participants, n.participants, initialWeight), store.reactions)
             == Success((cs, ps))
    ensures Keys(ps) == Keys(n.participants) + Keys(store.participants)
    ensures forall e :: e in cs ==> e.1.author.Some? ==> e.1.author.value in Keys(ps)
  {
    forall e | e in cs && e.1.author.Some? ensures e.1.author.value in Keys(ps) {
      var raw := Get(n.comments, e.0).value;
      assert (e.0, raw) in n.comments;
      if raw.author.login == "" && e.0 in Keys(store.comments) {
        assert (e.0, Get(store.comments, e.0).value) in store.comments;
      }
    }
  }

  /** Every loaded reaction names loaded participants and a loaded comment. */
  lemma LoadedReviewsKnown(store: Store, n: Normalised, initialWeight: real,
                           cs: Dict<string, Comment>, ps: Dict<string, Participant>, rs: Dict<string, Reaction>)
    requires WellFormed(store) && Indexed(n) && Covered(n)
    requires LoadComments(store.comments, n.comments, LoadParticipants(store.participants, n.participants, initialWeight), store.reactions)
             == Success((cs, ps))
    requires LoadReactions(store.reactions, n.reactions, ps) == Success(rs)
    ensures forall e :: e in rs ==> LinksIn(e.1, ps) && e.1.review in Keys(cs)
  {
    assert Keys(store.participants) <= Keys(ps);
    assert Keys(store.comments) <= Keys(cs);
    forall e | e in store.reactions ensures LinksIn(e.1, ps) {
    }
    forall e | e in rs ensures e.1.review in Keys(cs) {
      GetEntry(rs, e.0, e.1);
      if e.0 in Keys(n.reactions) {
        assert (e.0, Get(n.reactions, e.0).value) in n.reactions;
      } else {
        assert (e.0, Get(store.reactions, e.0).value) in store.reactions;
      }
    }
  }

  /** What the run adds to a participant's score: the reactions newer than
      their checkpoint, weighted by the givers' weights, both as they stood
      before the run updated them. */
  function ScoreGain(s: Store, p: Participant): real
  {
    var t, g := Received(s.reactions, p, s.participants), Given(s.reactions, p);
    t.weightedPos - t.weightedNeg + C1 * g.up as real + C2 * g.down as real
  }

  /** How one participant comes out of the update stages: scored against the
      store as it was, then ranked, weighted and given a new checkpoint within
      the final table `r`. */
  ghost predicate Stepped(s: Store, r: Store, p: Participant, q: Participant)
  {
    && Scored(s, p, q.(rank := p.rank, trend := p.trend, weightFactor := p.weightFactor, lastActiveAt := p.lastActiveAt))
    && q.score - p.score == ScoreGain(s, p)
    && RankStepped(p, q, r.participants)
    && WeightStepped(q, r.participants)
    && TimeStepped(p, q, r)
  }

  /** The rank is the dense rank of the final score among the final scores,
      and the trend records the move from a previous non-zero rank
      (data.py:482-511). */
  predicate RankStepped(p: Participant, q: Participant, ps: Dict<string, Participant>)
  {
    && q.rank == Some(DenseRank(TableScores(ps), q.score))
    && 1 <= q.rank.value <= |ps|
    && Trended(p, q)
  }

  /** The trend records the move from a previous non-zero rank, and is kept
      otherwise (data.py:487-500). */
  predicate Trended(p: Participant, q: Participant)
  {
    && q.rank.Some?
    && (HadRank(p) ==> q.trend == Some(p.rank.value - q.rank.value))
    && (!HadRank(p) ==> q.trend == p.trend)
  }

  /** The weight is what the final score earns against the final largest score
      (data.py:516-556). */
  predicate WeightStepped(q: Participant, ps: Dict<string, Participant>)
  {
    && Admissible(q.weightFactor) && (q.score < 0.0 <==> q.weightFactor == 0.0)
    && q.weightFactor == Weight(q.score, MaxScore(ps))
  }

  /** The checkpoint is the latest of the old one and the participant's
      activity in the final store (data.py:301-348). */
  ghost predicate TimeStepped(p: Participant, q: Participant, r: Store)
  {
    && (q.lastActiveAt.None? <==> p.lastActiveAt.None? && forall t :: !ActiveAt(p.login, r.comments, r.reactions, t))
    && (p.lastActiveAt.Some? ==> q.lastActiveAt.Some? && p.lastActiveAt.value <= q.lastActiveAt.value)
    && (q.lastActiveAt.Some? ==> forall t :: ActiveAt(p.login, r.comments, r.reactions, t) ==> t <= q.lastActiveAt.value)
    && (q.lastActiveAt.Some? ==> q.lastActiveAt == p.lastActiveAt || ActiveAt(p.login, r.comments, r.reactions, q.lastActiveAt.value))
  }

  /** The update stages at data.py:111-118, in their order: scores (with the
      weights and checkpoints of the previous run), ranks, weight factors,
      checkpoints. */
  function Update(s: Store): (r: Store)
    requires WellFormed(s) && GiversKnown(s.participants, s.reactions)
    ensures WellFormed(r)
    ensures |r.participants| == |s.participants| && Keys(r.participants) == Keys(s.participants)
    ensures Keys(r.comments) == Keys(s.comments) && r.reactions == s.reactions
    ensures forall i :: 0 <= i < |s.participants| ==>
      r.participants[i].0 == s.participants[i].0 && Stepped(s, r, s.participants[i].1, r.participants[i].1)
    ensures RankOrder(r.participants) && Gapless(r.participants)
  {
    var scored := UpdateScores(s);
    var timed := UpdateTime(UpdateWeightFactors(UpdateRankings(scored.participants)), scored.comments, scored.reactions);
    var r := Store(timed, scored.comments, scored.reactions);
    UpdatedWellFormed(s, r);
    UpdatedParticipants(s, r);
    UpdatedRanks(s, r);
    r
  }

  /** The stores the update stages produce, named. */
  predicate Updated(s: Store, r: Store)
    requires WellFormed(s) && GiversKnown(s.participants, s.reactions)
  {
    var scored := UpdateScores(s);
    r == Store(UpdateTime(UpdateWeightFactors(UpdateRankings(scored.participants)), scored.comments, scored.reactions),
               scored.comments, scored.reactions)
  }

  lemma UpdatedWellFormed(s: Store, r: Store)
    requires WellFormed(s) && GiversKnown(s.participants, s.reactions) && Updated(s, r)
    ensures WellFormed(r)
  {
    forall e | e in r.comments
      ensures e.0 == e.1.id && (e.1.author.Some? ==> e.1.author.value in Keys(r.participants))
    {
      var i :| 0 <= i < |r.comments| && r.comments[i] == e;
      assert s.comments[i] in s.comments;
    }
  }

  lemma UpdatedParticipants(s: Store, r: Store)
    requires WellFormed(s) && GiversKnown(s.participants, s.reactions) && Updated(s, r)
    ensures forall i :: 0 <= i < |s.participants| ==>
      r.participants[i].0 == s.participants[i].0 && Stepped(s, r, s.participants[i].1, r.participants[i].1)
  {
    forall i | 0 <= i < |s.participants|
      ensures r.participants[i].0 == s.participants[i].0 && Stepped(s, r, s.participants[i].1, r.participants[i].1)
    {
      UpdatedParticipant(s, r, i);
    }
  }

  lemma UpdatedParticipant(s: Store, r: Store, i: int)
    requires WellFormed(s) && GiversKnown(s.participants, s.reactions) && Updated(s, r)
    requires 0 <= i < |s.participants|
    ensures r.participants[i].0 == s.participants[i].0 && Stepped(s, r, s.participants[i].1, r.participants[i].1)
  {
    var p, q := s.participants[i].1, r.participants[i].1;
    StepScored(s, r, i);
    StepRanked(s, r, i);
    StepWeighted(s, r, i);
    StepTimed(s, r, i);
  }

  /** Apart from rank, trend, weight and checkpoint, the participant is as the
      score pass left it. */
  lemma StepScored(s: Store, r: Store, i: int)
    requires WellFormed(s) && GiversKnown(s.participants, s.reactions) && Updated(s, r)
    requires 0 <= i < |s.participants|
    ensures r.participants[i].0 == s.participants[i].0
    ensures var p, q := s.participants[i].1, r.participants[i].1;
      && Scored(s, p, q.(rank := p.rank, trend := p.trend, weightFactor := p.weightFactor, lastActiveAt := p.lastActiveAt))
      && q.score - p.score == ScoreGain(s, p)
  {
    var scored := UpdateScores(s);
    var ranked := UpdateRankings(scored.participants);
    var weighted := UpdateWeightFactors(ranked);
    var p, sp, rp, wp, q := s.participants[i].1, scored.participants[i].1, ranked[i].1, weighted[i].1, r.participants[i].1;
    assert Scored(s, p, sp);
    assert Moved(sp, rp, |scored.participants|);
    assert wp == rp.(weightFactor := wp.weightFactor);
    assert q == Touch(wp, scored.comments, scored.reactions);
    assert q.(rank := p.rank, trend := p.trend, weightFactor := p.weightFactor, lastActiveAt := p.lastActiveAt) == sp;
  }

  lemma StepRanked(s: Store, r: Store, i: int)
    requires WellFormed(s) && GiversKnown(s.participants, s.reactions) && Updated(s, r)
    requires 0 <= i < |s.participants|
    ensures RankStepped(s.participants[i].1, r.participants[i].1, r.participants)
  {
    var scored := UpdateScores(s);
    assert Scored(s, s.participants[i].1, scored.participants[i].1);
    UpdatedKeepsRanks(s, r);
    RankCarriedAt(scored.participants, r.participants, i, s.participants[i].1);
  }

  /** One participant of such a table, seen against its rank and trend
      before the ranking pass. */
  lemma RankCarriedAt(ps: Dict<string, Participant>, final: Dict<string, Participant>, i: int, p: Participant)
    requires |final| == |ps| && 0 <= i < |ps|
    requires forall i :: 0 <= i < |ps| ==>
      && final[i].1.score == UpdateRankings(ps)[i].1.score == ps[i].1.score
      && final[i].1.rank == UpdateRankings(ps)[i].1.rank
    requires final[i].1.trend == UpdateRankings(ps)[i].1.trend
    requires p.rank == ps[i].1.rank && p.trend == ps[i].1.trend
    ensures RankStepped(p, final[i].1, final)
  {
    var ranked := UpdateRankings(ps);
    var q := final[i].1;
    assert Moved(ps[i].1, ranked[i].1, |ps|);
    TrendCarried(ps[i].1, ranked[i].1, |ps|, p, q);
    TableScoresKept(ps, final);
  }

  lemma StepWeighted(s: Store, r: Store, i: int)
    requires WellFormed(s) && GiversKnown(s.participants, s.reactions) && Updated(s, r)
    requires 0 <= i < |s.participants|
    ensures WeightStepped(r.participants[i].1, r.participants)
  {
    var scored := UpdateScores(s);
    var ranked := UpdateRankings(scored.participants);
    var weighted := UpdateWeightFactors(ranked);
    var rp, wp, q := ranked[i].1, weighted[i].1, r.participants[i].1;
    assert wp == rp.(weightFactor := Weight(rp.score, MaxScore(ranked)));
    assert q == Touch(wp, scored.comments, scored.reactions);
    UpdatedRanks(s, r);
  }

  lemma StepTimed(s: Store, r: Store, i: int)
    requires WellFormed(s) && GiversKnown(s.participants, s.reactions) && Updated(s, r)
    requires 0 <= i < |s.participants|
    ensures TimeStepped(s.participants[i].1, r.participants[i].1, r)
  {
    var scored := UpdateScores(s);
    var ranked := UpdateRankings(scored.participants);
    var weighted := UpdateWeightFactors(ranked);
    var p, sp, rp, wp, q := s.participants[i].1, scored.participants[i].1, ranked[i].1, weighted[i].1, r.participants[i].1;
    assert Scored(s, p, sp);
    assert Moved(sp, rp, |scored.participants|);
    assert wp == rp.(weightFactor := wp.weightFactor);
    assert q == Touch(wp, scored.comments, scored.reactions);
  }

  /** The trend rule depends only on ranks and trends, so it carries over to
      participants that agree on them. */
  lemma TrendCarried(p: Participant, q: Participant, n: int, p': Participant, q': Participant)
    requires Moved(p, q, n)
    requires p'.rank == p.rank && p'.trend == p.trend && q'.rank == q.rank && q'.trend == q.trend
    ensures Trended(p', q')
  {
  }

  /** The weight and time passes change neither scores nor ranks. */
  lemma UpdatedKeepsRanks(s: Store, r: Store)
    requires WellFormed(s) && GiversKnown(s.participants, s.reactions) && Updated(s, r)
    ensures var scored := UpdateScores(s).participants;
      var ranked := UpdateRankings(scored);
      && |ranked| == |r.participants| == |scored|
      && forall i :: 0 <= i < |ranked| ==>
           && r.participants[i].1.score == ranked[i].1.score == scored[i].1.score
           && r.participants[i].1.rank == ranked[i].1.rank
           && r.participants[i].1.trend == ranked[i].1.trend
  {
    var scored := UpdateScores(s);
    var ranked := UpdateRankings(scored.participants);
    var weighted := UpdateWeightFactors(ranked);
    forall i | 0 <= i < |ranked|
      ensures r.participants[i].1.score == ranked[i].1.score == scored.participants[i].1.score
      ensures r.participants[i].1.rank == ranked[i].1.rank
      ensures r.participants[i].1.trend == ranked[i].1.trend
    {
      assert Moved(scored.participants[i].1, ranked[i].1, |scored.participants|);
      assert r.participants[i].1 == Touch(weighted[i].1, scored.comments, scored.reactions);
    }
  }

  /** The weight and time passes keep every score and rank the ranking pass
      left, so the final table keeps the rank order, the gapless ranks, the
      set of scores and the largest score the weights were scaled by. */
  lemma UpdatedRanks(s: Store, r: Store)
    requires WellFormed(s) && GiversKnown(s.participants, s.reactions) && Updated(s, r)
    ensures MaxScore(UpdateRankings(UpdateScores(s).participants)) == MaxScore(r.participants)
    ensures TableScores(UpdateScores(s).participants) == TableScores(r.participants)
    ensures RankOrder(r.participants) && Gapless(r.participants)
  {
    UpdatedKeepsRanks(s, r);
    RanksCarried(UpdateScores(s).participants, r.participants);
  }

  /** A table that keeps the scores and ranks the ranking pass gave `ps`
      keeps what the pass promises about them. */
  lemma RanksCarried(ps: Dict<string, Participant>, final: Dict<string, Participant>)
    requires |final| == |ps|
    requires forall i :: 0 <= i < |ps| ==>
      && final[i].1.score == UpdateRankings(ps)[i].1.score == ps[i].1.score
      && final[i].1.rank == UpdateRankings(ps)[i].1.rank
    ensures MaxScore(UpdateRankings(ps)) == MaxScore(final)
    ensures TableScores(ps) == TableScores(final)
    ensures RankOrder(final) && Gapless(final)
  {
    var ranked := UpdateRankings(ps);
    MaxFromScores(ranked, final, 1.0);
    RankOrderKept(ranked, final);
    GaplessKept(ranked, final);
    TableScoresKept(ps, final);
  }

  /** Why a run stopped, and the store the database holds at that point: the
      loaded store once it was dumped (data.py:104-109), before the score
      update can abort on a counted reaction without a giver. */
  datatype Abort = Abort(cause: Error, saved: Option<Store>)

  /** Every participant carries a rank within the table and the weight its
      score earns against the table's largest score. */
  predicate Settled(ps: Dict<string, Participant>)
  {
    forall i :: 0 <= i < |ps| ==> Fits(ps[i].1, ps)
  }

  /** Participant `p` of table `ps` has a rank within the table and the weight
      its score earns against the table's largest score. */
  predicate Fits(p: Participant, ps: Dict<string, Participant>)
  {
    && Admissible(p.weightFactor) && p.rank.Some? && 1 <= p.rank.value <= |ps|
    && p.weightFactor == Weight(p.score, MaxScore(ps))
  }

  /** No stored checkpoint moves back. */
  predicate CheckpointsKept(stored: Dict<string, Participant>, ps: Dict<string, Participant>)
  {
    forall l :: l in Keys(stored) && Get(stored, l).value.lastActiveAt.Some? ==>
      && l in Keys(ps)
      && Get(ps, l).value.lastActiveAt.Some?
      && Get(stored, l).value.lastActiveAt.value <= Get(ps, l).value.lastActiveAt.value
  }

  /** What a successful run leaves in the database: a well-formed store holding
      the feed's and the stored participants, exactly the feed's comments and
      the stored and the feed's reactions; ranks in score order, weights scaled
      by the largest score, and no checkpoint moved back. */
  predicate Delivered(store: Store, n: Normalised, r: Store)
  {
    && WellFormed(r)
    && Keys(r.participants) == Keys(n.participants) + Keys(store.participants)
    && Keys(r.comments) == Keys(n.comments)
    && Keys(r.reactions) == Keys(store.reactions) + Keys(n.reactions)
    && Settled(r.participants)
    && RankOrder(r.participants) && Gapless(r.participants)
    && CheckpointsKept(store.participants, r.participants)
  }

  /** A whole run: normalise the feed, load it, dump it, stop on a counted
      reaction without a giver, update. */
  function Run(store: Store, issues: seq<Issue>, initialWeight: real): (r: Result<Store, Abort>)
    requires WellFormed(store)
    ensures !(Keys(store.comments) <= Keys(Normalise(issues).comments)) ==> r.Failure? && r.error.saved.None?
    ensures r.Failure? ==> r.error.cause.MissingFeedComment? || r.error.cause.AuthorlessEdit? || r.error.cause.MissingGiver?
    ensures r.Failure? ==> (r.error.saved.Some? <==> r.error.cause.MissingGiver?)
    ensures r.Failure? && r.error.saved.Some? ==>
      && !GiversKnown(r.error.saved.value.participants, r.error.saved.value.reactions)
      && (NormaliseIndexed(issues); Load(store, Normalise(issues), initialWeight) == Success(r.error.saved.value))
    ensures r.Success? ==> Delivered(store, Normalise(issues), r.value)
    ensures (r.Failure? && r.error.saved.None?) <==> !CommentsPass(store, Normalise(issues))
    ensures r.Failure? && r.error.saved.None? ==>
      exists i :: && FirstFailing(store, Normalise(issues), i)
                  && r.error.cause == CommentError(store.comments[i].1, Normalise(issues).comments)
    ensures CommentsPass(store, Normalise(issues)) ==>
      (NormaliseIndexed(issues);
       var s := Load(store, Normalise(issues), initialWeight).value;
       if GiversKnown(s.participants, s.reactions) then r == Success(Update(s))
       else r == Failure(Abort(GiverFailure(s.participants, s.reactions).value, Some(s))))
  {
    NormaliseIndexed(issues);
    RunNormalised(store, Normalise(issues), initialWeight)
  }

  /** A run on a feed already normalised and indexed. */
  function RunNormalised(store: Store, n: Normalised, initialWeight: real): (r: Result<Store, Abort>)
    requires WellFormed(store) && Indexed(n) && Covered(n)
    ensures !(Keys(store.comments) <= Keys(n.comments)) ==> r.Failure? && r.error.saved.None?
    ensures r.Failure? ==> r.error.cause.MissingFeedComment? || r.error.cause.AuthorlessEdit? || r.error.cause.MissingGiver?
    ensures r.Failure? ==> (r.error.saved.Some? <==> r.error.cause.MissingGiver?)
    ensures r.Failure? && r.error.saved.Some? ==>
      && Load(store, n, initialWeight) == Success(r.error.saved.value)
      && !GiversKnown(r.error.saved.value.participants, r.error.saved.value.reactions)
    ensures r.Success? ==> Delivered(store, n, r.value)
    ensures (r.Failure? && r.error.saved.None?) <==> !CommentsPass(store, n)
    ensures r.Failure? && r.error.saved.None? ==>
      exists i :: FirstFailing(store, n, i) && r.error.cause == CommentError(store.comments[i].1, n.comments)
    ensures CommentsPass(store, n) ==>
      var s := Load(store, n, initialWeight).value;
      if GiversKnown(s.participants, s.reactions) then r == Success(Update(s))
      else r == Failure(Abort(GiverFailure(s.participants, s.reactions).value, Some(s)))
  {
    match Load(store, n, initialWeight)
    case Failure(err) => Failure(Abort(err, None))
    case Success(s) =>
      match GiverFailure(s.participants, s.reactions)
      case Some(err) => Failure(Abort(err, Some(s)))
      case None => Success(Finish(store, n, initialWeight, s))
  }

  /** The update stages of a run that got past loading and the giver check. */
  function Finish(store: Store, n: Normalised, initialWeight: real, s: Store): (r: Store)
    requires WellFormed(store) && Indexed(n) && Covered(n)
    requires Load(store, n, initialWeight) == Success(s)
    requires GiversKnown(s.participants, s.reactions)
    ensures Delivered(store, n, r)
  {
    var r := Update(s);
    Ran(store, n, initialWeight, s, r);
    r
  }

  /** What a run that gets past loading and the giver check delivers. */
  lemma Ran(store: Store, n: Normalised, initialWeight: real, s: Store, r: Store)
    requires WellFormed(store) && Indexed(n) && Covered(n)
    requires Load(store, n, initialWeight) == Success(s)
    requires GiversKnown(s.participants, s.reactions) && r == Update(s)
    ensures Delivered(store, n, r)
  {
    RanksAndWeights(s, r);
    CheckpointsCarried(store.participants, s, r);
  }

  /** Checkpoints the loading stages leave untouched do not move back in the
      update stages. */
  lemma CheckpointsCarried(stored: Dict<string, Participant>, s: Store, r: Store)
    requires WellFormed(s) && GiversKnown(s.participants, s.reactions) && r == Update(s)
    requires forall l :: l in Keys(stored) ==>
      l in Keys(s.participants) && Get(s.participants, l).value.lastActiveAt == Get(stored, l).value.lastActiveAt
    ensures CheckpointsKept(stored, r.participants)
  {
    UpdateKeepsCheckpoints(s, r);
    CheckpointsKeptTrans(stored, s.participants, r.participants);
  }

  lemma UpdateKeepsCheckpoints(s: Store, r: Store)
    requires WellFormed(s) && GiversKnown(s.participants, s.reactions) && r == Update(s)
    ensures CheckpointsKept(s.participants, r.participants)
  {
    forall l | l in Keys(s.participants) && Get(s.participants, l).value.lastActiveAt.Some?
      ensures l in Keys(r.participants)
      ensures Get(r.participants, l).value.lastActiveAt.Some?
      ensures Get(s.participants, l).value.lastActiveAt.value <= Get(r.participants, l).value.lastActiveAt.value
    {
      CheckpointKept(s, r, l);
    }
  }

  lemma CheckpointsKeptTrans(stored: Dict<string, Participant>, ps: Dict<string, Participant>, qs: Dict<string, Participant>)
    requires forall l :: l in Keys(stored) ==>
      l in Keys(ps) && Get(ps, l).value.lastActiveAt == Get(stored, l).value.lastActiveAt
    requires CheckpointsKept(ps, qs)
    ensures CheckpointsKept(stored, qs)
  {
  }

  lemma RanksAndWeights(s: Store, r: Store)
    requires WellFormed(s) && GiversKnown(s.participants, s.reactions) && r == Update(s)
    ensures Settled(r.participants)
  {
    forall i | 0 <= i < |r.participants| ensures Fits(r.participants[i].1, r.participants) {
      SettledAt(s, r, i);
    }
  }

  lemma SettledAt(s: Store, r: Store, i: int)
    requires WellFormed(s) && GiversKnown(s.participants, s.reactions) && r == Update(s)
    requires 0 <= i < |r.participants|
    ensures Fits(r.participants[i].1, r.participants)
  {
    assert Stepped(s, r, s.participants[i].1, r.participants[i].1);
  }

  lemma CheckpointKept(s: Store, r: Store, l: string)
    requires WellFormed(s) && GiversKnown(s.participants, s.reactions) && r == Update(s)
    requires l in Keys(s.participants)
    ensures l in Keys(r.participants)
    ensures Get(s.participants, l).value.lastActiveAt.Some? ==>
      && Get(r.participants, l).value.lastActiveAt.Some?
      && Get(s.participants, l).value.lastActiveAt.value <= Get(r.participants, l).value.lastActiveAt.value
  {
    var i := KeyIndex(s.participants, l);
    IndexGet(s.participants, i);
    IndexGet(r.participants, i);
    assert Stepped(s, r, s.participants[i].1, r.participants[i].1);
  }

  /** A feed reaction whose giver is neither a feed participant nor a stored
      one makes loading abort, whatever the store: on the comment checks if
      those fail first, and otherwise on a participant lookup for a login that
      is not loaded. */
  lemma UnregisteredReactorCrashes(store: Store, n: Normalised, initialWeight: real)
    requires WellFormed(store) && Indexed(n)
    requires exists e :: e in n.reactions && Stranger(e.1.raw.user.login, store, n)
    ensures var r := Load(store, n, initialWeight);
      && r.Failure?
      && (r.error.UnknownParticipant? || r.error.MissingFeedComment? || r.error.AuthorlessEdit?)
      && (LoadComments(store.comments, n.comments, LoadParticipants(store.participants, n.participants, initialWeight), store.reactions).Success? ==>
            r.error.UnknownParticipant? && r.error.login !in Keys(n.participants) + Keys(store.participants))
  {
    var ps := LoadParticipants(store.participants, n.participants, initialWeight);
    var e :| e in n.reactions && Stranger(e.1.raw.user.login, store, n);
    var lc := LoadComments(store.comments, n.comments, ps, store.reactions);
    if lc.Success? {
      var qs := lc.value.1;
      assert Keys(qs) == Keys(ps) == Keys(n.participants) + Keys(store.participants);
      assert UnknownLogin(e.1, qs);
      var rs := LoadReactions(store.reactions, n.reactions, qs);
      assert rs.Failure?;
      assert Load(store, n, initialWeight) == Failure(rs.error);
    }
  }

  /** A non-empty login that is neither a feed participant nor a stored one. */
  predicate Stranger(login: string, store: Store, n: Normalised)
  {
    login != "" && login !in Keys(n.participants) && login !in Keys(store.participants)
  }

  /** Loading into an empty store passes the comment checks, so an unregistered
      reactor aborts it on the participant lookup. */
  lemma UnregisteredReactorCrashesEmpty(n: Normalised, initialWeight: real)
    requires Indexed(n)
    requires exists e :: e in n.reactions && e.1.raw.user.login != "" && e.1.raw.user.login !in Keys(n.participants)
    ensures var r := Load(Store([], [], []), n, initialWeight);
      r.Failure? && r.error.UnknownParticipant? && r.error.login !in Keys(n.participants)
  {
    var ps := LoadParticipants([], n.participants, initialWeight);
    AsWrittenCommentsLoad(n, ps);
    UnregisteredReactorCrashes(Store([], [], []), n, initialWeight);
  }

  lemma AsWrittenCommentsLoad(n: Normalised, ps: Dict<string, Participant>)
    requires Indexed(n) && ParticipantsKeyed(ps)
    ensures LoadComments([], n.comments, ps, []).Success?
  {
    var table := [] + NewComments([], n.comments);
    forall e | e in table ensures e.1.id in Keys(n.comments) && !NeedsPunishment(RefreshFrom(n.comments, e.1), []) {
      NeedsPunishmentExactly(RefreshFrom(n.comments, e.1), []);
    }
    NoCommentFailure(table, n.comments, []);
  }

  /** Loading feed `n` into an empty store aborts on a participant lookup. */
  predicate CrashesOnLoad(n: Normalised, initialWeight: real)
  {
    && Indexed(n)
    && var r := Load(Store([], [], []), n, initialWeight);
       r.Failure? && r.error.UnknownParticipant?
  }

  /** The normaliser as written drops the reactor of a comment whose author
      has no login, and the run then aborts on the reaction lookup. */
  lemma AsWrittenLoadCrashes(initialWeight: real)
    ensures CrashesOnLoad(NormaliseAsWritten(DeletedAuthorFeed()), initialWeight)
  {
    AsWrittenFeedHasStranger();
    UnregisteredReactorCrashesEmpty(NormaliseAsWritten(DeletedAuthorFeed()), initialWeight);
  }

  /** The as-written feed is indexed, and it carries a reaction by "bob", whom
      it does not register. */
  lemma AsWrittenFeedHasStranger()
    ensures var n := NormaliseAsWritten(DeletedAuthorFeed());
      && Indexed(n)
      && exists e :: e in n.reactions && e.1.raw.user.login != "" && e.1.raw.user.login !in Keys(n.participants)
  {
    var issues := DeletedAuthorFeed();
    var n := NormaliseAsWritten(issues);
    ReactorGuardCounterexample();
    ReactionsStamped(issues);
    assert n.comments == Normalise(issues).comments && n.reactions == Normalise(issues).reactions;
    NormaliseIndexed(issues);
  }
}
