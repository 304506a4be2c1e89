/**
 * Reconciling the normalised feed with the store (`__load_participants_to_memory`,
 * `__load_comments_to_memory`, `__load_reactions_to_memory`).
 */
module Loader {
  import opened Wrappers
  import opened Dict
  import opened Entities
  import opened Normalizer
  import opened Punishment

  /** `get_or_create(login=...)` followed by the name refresh. */
  function Attach(stored: Dict<string, Participant>, u: User, initialWeight: real): Participant
  {
    match Get(stored, u.login)
    case Some(p) => p.(name := u.name)
    case None => Fresh(u.login, u.name, initialWeight)
  }

  /** The stored participants the feed does not mention, in store order. */
  function Backfill(stored: Dict<string, Participant>, seen: set<string>): (r: Dict<string, Participant>)
    ensures Keys(r) == Keys(stored) - seen
    ensures forall e :: e in r ==> e in stored
    ensures UniqueKeys(stored) ==> UniqueKeys(r)
  {
    if stored == [] then []
    else if stored[0].0 in seen then Backfill(stored[1..], seen)
    else [stored[0]] + Backfill(stored[1..], seen)
  }

  lemma {:induction false} DisjointConcatUnique<V>(a: Dict<string, V>, b: Dict<string, V>)
    requires UniqueKeys(a) && UniqueKeys(b)
    requires Keys(a) !! Keys(b)
    ensures UniqueKeys(a + b)
    ensures Keys(a + b) == Keys(a) + Keys(b)
  {
    if a != [] {
      assert (a + b)[1..] == a[1..] + b;
      DisjointConcatUnique(a[1..], b);
    } else {
      assert a + b == b;
    }
  }

  /** The participants in memory after loading: the feed's participants,
      attached to their stored history or created, then every other stored
      participant. */
  function LoadParticipants(stored: Dict<string, Participant>, feed: Dict<string, User>, initialWeight: real): (r: Dict<string, Participant>)
    requires ParticipantsKeyed(stored)
    requires UniqueKeys(feed) && forall e :: e in feed ==> e.0 == e.1.login
    ensures ParticipantsKeyed(r)
    ensures Keys(r) == Keys(feed) + Keys(stored)
    ensures forall l :: l in Keys(feed) && l in Keys(stored) ==>
      Get(r, l) == Some(Get(stored, l).value.(name := Get(feed, l).value.name))
    ensures forall l :: l in Keys(feed) && l !in Keys(stored) ==>
      Get(r, l) == Some(Fresh(l, Get(feed, l).value.name, initialWeight))
    ensures forall l :: l !in Keys(feed) ==> Get(r, l) == Get(stored, l)
  {
    var r := MapValues(feed, (u: User) => Attach(stored, u, initialWeight)) + Backfill(stored, Keys(feed));
    LoadedKeyed(stored, feed, initialWeight, r);
    LoadedParticipants(stored, feed, initialWeight, r);
    FeedLogins(feed);
    r
  }

  lemma LoadedKeyed(stored: Dict<string, Participant>, feed: Dict<string, User>, initialWeight: real, r: Dict<string, Participant>)
    requires ParticipantsKeyed(stored)
    requires UniqueKeys(feed) && forall e :: e in feed ==> e.0 == e.1.login
    requires r == MapValues(feed, (u: User) => Attach(stored, u, initialWeight)) + Backfill(stored, Keys(feed))
    ensures ParticipantsKeyed(r) && Keys(r) == Keys(feed) + Keys(stored)
  {
    var attached := MapValues(feed, (u: User) => Attach(stored, u, initialWeight));
    var rest := Backfill(stored, Keys(feed));
    assert UniqueKeys(attached) && Keys(attached) == Keys(feed);
    assert UniqueKeys(rest) && Keys(rest) == Keys(stored) - Keys(feed);
    DisjointConcatUnique(attached, rest);
    AttachedKeyed(stored, feed, initialWeight);
    assert Keys(r) == Keys(feed) + (Keys(stored) - Keys(feed));
  }

  lemma LoadedParticipants(stored: Dict<string, Participant>, feed: Dict<string, User>, initialWeight: real, r: Dict<string, Participant>)
    requires r == MapValues(feed, (u: User) => Attach(stored, u, initialWeight)) + Backfill(stored, Keys(feed))
    ensures forall l :: Get(r, l) == if l in Keys(feed) then Some(Attach(stored, Get(feed, l).value, initialWeight)) else Get(stored, l)
  {
    forall l ensures Get(r, l) == if l in Keys(feed) then Some(Attach(stored, Get(feed, l).value, initialWeight)) else Get(stored, l) {
      LoadedLookup(stored, feed, initialWeight, l);
    }
  }

  lemma FeedLogins(feed: Dict<string, User>)
    requires forall e :: e in feed ==> e.0 == e.1.login
    ensures forall l :: l in Keys(feed) ==> Get(feed, l).value.login == l
  {
    forall l | l in Keys(feed) ensures Get(feed, l).value.login == l {
      assert (l, Get(feed, l).value) in feed;
    }
  }

  lemma LoadedLookup(stored: Dict<string, Participant>, feed: Dict<string, User>, initialWeight: real, l: string)
    ensures var attached := MapValues(feed, (u: User) => Attach(stored, u, initialWeight));
      Get(attached + Backfill(stored, Keys(feed)), l)
        == if l in Keys(feed) then Some(Attach(stored, Get(feed, l).value, initialWeight)) else Get(stored, l)
  {
    var attached := MapValues(feed, (u: User) => Attach(stored, u, initialWeight));
    var rest := Backfill(stored, Keys(feed));
    GetConcat(attached, rest, l);
    GetMapValues(feed, (u: User) => Attach(stored, u, initialWeight), l);
    if l !in Keys(feed) {
      GetBackfill(stored, Keys(feed), l);
    }
  }

  /** Every attached participant sits under its own login. */
  lemma AttachedKeyed(stored: Dict<string, Participant>, feed: Dict<string, User>, initialWeight: real)
    requires ParticipantsKeyed(stored)
    requires forall e :: e in feed ==> e.0 == e.1.login
    ensures forall e :: e in MapValues(feed, (u: User) => Attach(stored, u, initialWeight)) + Backfill(stored, Keys(feed)) ==> e.0 == e.1.login
  {
    var attached := MapValues(feed, (u: User) => Attach(stored, u, initialWeight));
    forall e | e in attached ensures e.0 == e.1.login {
      var i :| 0 <= i < |attached| && attached[i] == e;
      assert feed[i] in feed;
      var g := Get(stored, feed[i].1.login);
      if g.Some? {
        assert (feed[i].1.login, g.value) in stored;
      }
    }
  }

  lemma {:induction false} GetConcat<V>(a: Dict<string, V>, b: Dict<string, V>, k: string)
    ensures Get(a + b, k) == if k in Keys(a) then Get(a, k) else Get(b, k)
  {
    if a != [] {
      assert (a + b)[1..] == a[1..] + b;
      GetConcat(a[1..], b, k);
    } else {
      assert a + b == b;
    }
  }

  lemma {:induction false} GetBackfill(stored: Dict<string, Participant>, seen: set<string>, k: string)
    requires k !in seen
    ensures Get(Backfill(stored, seen), k) == Get(stored, k)
  {
    if stored != [] {
      GetBackfill(stored[1..], seen, k);
    }
  }

  /** A comment as `bulk_create` stores it: the id and default tallies. */
  function Blank(id: string): Comment
  {
    Comment(id, "", "", 0, None, None, 0.0, 0, 0, 0.0, 0.0)
  }

  /** The feed's comments the store does not hold yet, as `bulk_create` appends them. */
  function NewComments(stored: Dict<string, Comment>, feed: Dict<string, RawComment>): (r: Dict<string, Comment>)
    ensures Keys(r) == Keys(feed) - Keys(stored)
    ensures forall e :: e in r ==> e == (e.0, Blank(e.0))
    ensures UniqueKeys(feed) ==> UniqueKeys(r)
  {
    if feed == [] then []
    else if feed[0].0 in Keys(stored) then NewComments(stored, feed[1..])
    else [(feed[0].0, Blank(feed[0].0))] + NewComments(stored, feed[1..])
  }

  /** The data.py:241-249 refresh of one stored comment from its feed record:
      content and times from the feed, the author only when the feed names one. */
  function Refresh(c: Comment, raw: RawComment): Comment
  {
    c.(body := raw.bodyText, diff := raw.diffHunk, createdAt := raw.createdAt,
       lastEditedAt := raw.lastEditedAt,
       author := if raw.author.login != "" then Some(raw.author.login) else c.author)
  }

  function RefreshFrom(feed: Dict<string, RawComment>, c: Comment): Comment
  {
    match Get(feed, c.id)
    case Some(raw) => Refresh(c, raw)
    case None => c
  }

  /** The loop at data.py:241-252 gets past comment `c`: it is in the feed
      (`self.comments[c.id]`), and it is not a comment to be punished that has
      no author (`author.punishment` on `None`). */
  predicate CommentPasses(c: Comment, feed: Dict<string, RawComment>, reactions: Dict<string, Reaction>)
  {
    c.id in Keys(feed) && !(RefreshFrom(feed, c).author.None? && NeedsPunishment(RefreshFrom(feed, c), reactions))
  }

  /** The error the loop raises on a comment it does not get past. */
  function CommentError(c: Comment, feed: Dict<string, RawComment>): Error
  {
    if c.id !in Keys(feed) then MissingFeedComment(c.id) else AuthorlessEdit(c.id)
  }

  /** The first comment of the store, in store order, on which the loop aborts. */
  function CommentFailure(table: Dict<string, Comment>, feed: Dict<string, RawComment>, reactions: Dict<string, Reaction>): (r: Option<Error>)
    ensures r.None? <==> forall i :: 0 <= i < |table| ==> CommentPasses(table[i].1, feed, reactions)
    ensures r.Some? ==> exists i :: (0 <= i < |table|
                                     && (forall j :: 0 <= j < i ==> CommentPasses(table[j].1, feed, reactions))
                                     && !CommentPasses(table[i].1, feed, reactions)
                                     && r.value == CommentError(table[i].1, feed))
    ensures r.None? ==> forall e :: e in table ==> e.1.id in Keys(feed)
    ensures (exists e :: e in table && e.1.id !in Keys(feed)) ==> r.Some?
    ensures r.Some? ==> r.value.MissingFeedComment? || r.value.AuthorlessEdit?
  {
    if table == [] then None
    else
      var c := table[0].1;
      if !CommentPasses(c, feed, reactions) then Some(CommentError(c, feed))
      else
        assert forall e :: e in table <==> e == table[0] || e in table[1..];
        assert forall j :: 0 <= j < |table| - 1 ==> table[1..][j] == table[j + 1];
        CommentFailure(table[1..], feed, reactions)
  }

  /** Loading comments: new feed comments are created, every stored comment is
      refreshed from the feed and checked for a late edit against the reactions
      stored so far. */
  function LoadComments(stored: Dict<string, Comment>, feed: Dict<string, RawComment>,
                        ps: Dict<string, Participant>, reactions: Dict<string, Reaction>)
    : (r: Result<(Dict<string, Comment>, Dict<string, Participant>), Error>)
    requires UniqueKeys(stored) && forall e :: e in stored ==> e.0 == e.1.id
    requires UniqueKeys(feed) && forall e :: e in feed ==> e.0 == e.1.id
    requires ParticipantsKeyed(ps)
    ensures r.Failure? <==> CommentFailure(stored + NewComments(stored, feed), feed, reactions).Some?
    ensures r.Failure? ==> r.error == CommentFailure(stored + NewComments(stored, feed), feed, reactions).value
    ensures !(Keys(stored) <= Keys(feed)) ==> r.Failure?
    ensures r.Failure? ==> r.error.MissingFeedComment? || r.error.AuthorlessEdit?
    ensures r.Success? ==>
      var (cs, qs) := r.value;
      && Keys(cs) == Keys(feed)
      && UniqueKeys(cs)
      && (forall e :: e in cs ==>
            var raw := Get(feed, e.0).value;
            && e.0 == e.1.id
            && e.1.body == raw.bodyText && e.1.diff == raw.diffHunk
            && e.1.createdAt == raw.createdAt && e.1.lastEditedAt == raw.lastEditedAt
            && (raw.author.login != "" ==> e.1.author == Some(raw.author.login))
            && (e.1.author.None? ==> !NeedsPunishment(e.1, reactions))
            && (e.0 in Keys(stored) ==> e.1.author.Some? || Get(stored, e.0).value.author.None?)
            && var base := if e.0 in Keys(stored) then Get(stored, e.0).value else Blank(e.0);
               e.1 == Refresh(base, raw))
      && qs == Punish(ps, cs, reactions)
  {
    var table := stored + NewComments(stored, feed);
    DisjointConcatUnique(stored, NewComments(stored, feed));
    StoredCommentsChecked(stored, feed, reactions);
    match CommentFailure(table, feed, reactions)
    case Some(err) => Failure(err)
    case None =>
      var cs := MapValues(table, (c: Comment) => RefreshFrom(feed, c));
      RefreshedComments(stored, feed, reactions);
      Success((cs, Punish(ps, cs, reactions)))
  }

  /** A stored comment missing from the feed makes the loop abort. */
  lemma StoredCommentsChecked(stored: Dict<string, Comment>, feed: Dict<string, RawComment>, reactions: Dict<string, Reaction>)
    requires forall e :: e in stored ==> e.0 == e.1.id
    ensures !(Keys(stored) <= Keys(feed)) ==>
      CommentFailure(stored + NewComments(stored, feed), feed, reactions).Some?
  {
    if !(Keys(stored) <= Keys(feed)) {
      var k :| k in Keys(stored) && k !in Keys(feed);
      KeysMember(stored, k);
      var e :| e in stored && e.0 == k;
      assert e in stored + NewComments(stored, feed);
    }
  }

  /** What one entry of the refreshed comment table holds: the feed's text and
      timestamps over the stored (or blank) comment, the feed author when there
      is one, and no authorless comment that would have to be punished. */
  predicate RefreshedAs(stored: Dict<string, Comment>, feed: Dict<string, RawComment>, reactions: Dict<string, Reaction>, e: (string, Comment))
    requires e.0 in Keys(feed)
  {
    var raw := Get(feed, e.0).value;
    && e.0 == e.1.id
    && e.1.body == raw.bodyText && e.1.diff == raw.diffHunk
    && e.1.createdAt == raw.createdAt && e.1.lastEditedAt == raw.lastEditedAt
    && (raw.author.login != "" ==> e.1.author == Some(raw.author.login))
    && (e.1.author.None? ==> !NeedsPunishment(e.1, reactions))
    && (e.0 in Keys(stored) ==> e.1.author.Some? || Get(stored, e.0).value.author.None?)
    && var base := if e.0 in Keys(stored) then Get(stored, e.0).value else Blank(e.0);
       e.1 == Refresh(base, raw)
  }

  /** What the refreshed comment table holds when the loop does not abort. */
  lemma RefreshedComments(stored: Dict<string, Comment>, feed: Dict<string, RawComment>, reactions: Dict<string, Reaction>)
    requires UniqueKeys(stored) && forall e :: e in stored ==> e.0 == e.1.id
    requires UniqueKeys(feed) && forall e :: e in feed ==> e.0 == e.1.id
    requires CommentFailure(stored + NewComments(stored, feed), feed, reactions).None?
    ensures var cs := MapValues(stored + NewComments(stored, feed), (c: Comment) => RefreshFrom(feed, c));
      && Keys(cs) == Keys(feed)
      && UniqueKeys(cs)
      && forall e :: e in cs ==> e.0 in Keys(feed) && RefreshedAs(stored, feed, reactions, e)
  {
    RefreshedKeys(stored, feed, reactions);
    var table := stored + NewComments(stored, feed);
    var cs := MapValues(table, (c: Comment) => RefreshFrom(feed, c));
    forall e | e in cs ensures e.0 in Keys(feed) && RefreshedAs(stored, feed, reactions, e) {
      var i :| 0 <= i < |cs| && cs[i] == e;
      RefreshedEntry(stored, feed, reactions, table, i);
      RefreshedFields(stored, feed, reactions, e);
    }
  }

  /** The refreshed table is keyed by exactly the feed's comment ids. */
  lemma RefreshedKeys(stored: Dict<string, Comment>, feed: Dict<string, RawComment>, reactions: Dict<string, Reaction>)
    requires UniqueKeys(stored) && forall e :: e in stored ==> e.0 == e.1.id
    requires UniqueKeys(feed) && forall e :: e in feed ==> e.0 == e.1.id
    requires CommentFailure(stored + NewComments(stored, feed), feed, reactions).None?
    ensures var cs := MapValues(stored + NewComments(stored, feed), (c: Comment) => RefreshFrom(feed, c));
      Keys(cs) == Keys(feed) && UniqueKeys(cs)
  {
    var table := stored + NewComments(stored, feed);
    DisjointConcatUnique(stored, NewComments(stored, feed));
    forall k | k in Keys(stored) ensures k in Keys(feed) {
      KeysMember(stored, k);
      var e :| e in stored && e.0 == k;
      assert e in table;
    }
  }

  /** The field-level reading of one refreshed entry. */
  lemma RefreshedFields(stored: Dict<string, Comment>, feed: Dict<string, RawComment>, reactions: Dict<string, Reaction>,
                        e: (string, Comment))
    requires e.0 == e.1.id && e.0 in Keys(feed)
    requires e.1 == Refresh(if e.0 in Keys(stored) then Get(stored, e.0).value else Blank(e.0), Get(feed, e.0).value)
    requires e.1.author.None? ==> !NeedsPunishment(e.1, reactions)
    ensures var raw := Get(feed, e.0).value;
      && e.1.body == raw.bodyText && e.1.diff == raw.diffHunk
      && e.1.createdAt == raw.createdAt && e.1.lastEditedAt == raw.lastEditedAt
      && (raw.author.login != "" ==> e.1.author == Some(raw.author.login))
      && (e.0 in Keys(stored) ==> e.1.author.Some? || Get(stored, e.0).value.author.None?)
  {
  }

  lemma RefreshedEntry(stored: Dict<string, Comment>, feed: Dict<string, RawComment>, reactions: Dict<string, Reaction>,
                       table: Dict<string, Comment>, i: int)
    requires UniqueKeys(stored) && forall e :: e in stored ==> e.0 == e.1.id
    requires forall e :: e in feed ==> e.0 == e.1.id
    requires table == stored + NewComments(stored, feed)
    requires CommentFailure(table, feed, reactions).None?
    requires 0 <= i < |table|
    ensures var e := (table[i].0, RefreshFrom(feed, table[i].1));
      && e.0 == e.1.id && e.0 in Keys(feed)
      && e.1 == Refresh(if e.0 in Keys(stored) then Get(stored, e.0).value else Blank(e.0), Get(feed, e.0).value)
      && (e.1.author.None? ==> !NeedsPunishment(e.1, reactions))
  {
    assert table[i] in table;
    if i < |stored| {
      assert table[i] in stored;
      GetEntry(stored, table[i].0, table[i].1);
    } else {
      assert table[i] in NewComments(stored, feed);
      KeysMember(stored, table[i].0);
    }
    CommentFailureNone(table, feed, reactions, table[i]);
  }

  lemma {:induction false} CommentFailureNone(table: Dict<string, Comment>, feed: Dict<string, RawComment>, reactions: Dict<string, Reaction>, e: (string, Comment))
    requires CommentFailure(table, feed, reactions).None?
    requires e in table
    ensures RefreshFrom(feed, e.1).author.None? ==> !NeedsPunishment(RefreshFrom(feed, e.1), reactions)
  {
    if e != table[0] {
      assert e in table[1..];
      CommentFailureNone(table[1..], feed, reactions, e);
    }
  }

  /** With every comment in the feed and none to be punished, the loop does
      not abort. */
  lemma {:induction false} NoCommentFailure(table: Dict<string, Comment>, feed: Dict<string, RawComment>, reactions: Dict<string, Reaction>)
    requires forall e :: e in table ==> e.1.id in Keys(feed) && !NeedsPunishment(RefreshFrom(feed, e.1), reactions)
    ensures CommentFailure(table, feed, reactions).None?
  {
    if table != [] {
      assert table[0] in table;
      assert forall e :: e in table[1..] ==> e in table;
      NoCommentFailure(table[1..], feed, reactions);
    }
  }

  /** `get_or_create(id=...)` for one feed reaction, then its fields from the
      feed (data.py:283-292); giver and receiver change only when the feed
      names a login. */
  function AttachReaction(stored: Dict<string, Reaction>, fr: FeedReaction): Reaction
  {
    var base := Get(stored, fr.raw.id);
    Reaction(
      fr.raw.id, fr.raw.createdAt, fr.raw.content,
      if fr.raw.user.login != "" then Some(fr.raw.user.login)
      else if base.Some? then base.value.giver else None,
      if fr.receiverLogin != "" then Some(fr.receiverLogin)
      else if base.Some? then base.value.receiver else None,
      fr.commentId)
  }

  /** The reaction's giver and receiver, where set, are participants of `ps`. */
  predicate LinksIn(q: Reaction, ps: Dict<string, Participant>)
  {
    (q.giver.Some? ==> q.giver.value in Keys(ps)) && (q.receiver.Some? ==> q.receiver.value in Keys(ps))
  }

  /** A login the feed reaction names that is not in memory. */
  predicate UnknownLogin(fr: FeedReaction, ps: Dict<string, Participant>)
  {
    || (fr.raw.user.login != "" && fr.raw.user.login !in Keys(ps))
    || (fr.receiverLogin != "" && fr.receiverLogin !in Keys(ps))
  }

  /** The login of feed reaction `fr` whose lookup raises first: the giver's,
      then the receiver's. */
  function Culprit(fr: FeedReaction, ps: Dict<string, Participant>): string
  {
    if fr.raw.user.login != "" && fr.raw.user.login !in Keys(ps) then fr.raw.user.login else fr.receiverLogin
  }

  /** The first feed reaction, in feed order, whose giver or receiver lookup
      `self.participants[...]` raises, and the login it raises on. */
  function ReactionFailure(feed: Dict<string, FeedReaction>, ps: Dict<string, Participant>): (r: Option<Error>)
    ensures r.None? <==> forall e :: e in feed ==> !UnknownLogin(e.1, ps)
    ensures r.Some? ==> exists i :: (0 <= i < |feed|
                                     && (forall j :: 0 <= j < i ==> !UnknownLogin(feed[j].1, ps))
                                     && UnknownLogin(feed[i].1, ps)
                                     && r.value == UnknownParticipant(Culprit(feed[i].1, ps)))
    ensures r.Some? ==> r.value.UnknownParticipant? && r.value.login !in Keys(ps)
  {
    if feed == [] then None
    else
      assert forall e :: e in feed <==> e == feed[0] || e in feed[1..];
      assert forall j :: 0 <= j < |feed| - 1 ==> feed[1..][j] == feed[j + 1];
      var fr := feed[0].1;
      if UnknownLogin(fr, ps) then Some(UnknownParticipant(Culprit(fr, ps)))
      else ReactionFailure(feed[1..], ps)
  }

  /** Loading reactions: each feed reaction is created or updated in the
      reaction table; stored reactions the feed omits stay as they were. */
  function LoadReactions(stored: Dict<string, Reaction>, feed: Dict<string, FeedReaction>, ps: Dict<string, Participant>)
    : (r: Result<Dict<string, Reaction>, Error>)
    requires UniqueKeys(stored) && forall e :: e in stored ==> e.0 == e.1.id
    requires UniqueKeys(feed) && forall e :: e in feed ==> e.0 == e.1.raw.id
    ensures r.Failure? <==> exists e :: e in feed && UnknownLogin(e.1, ps)
    ensures r.Failure? ==> r.error.UnknownParticipant? && r.error.login !in Keys(ps)
    ensures r.Success? ==>
      && Keys(r.value) == Keys(stored) + Keys(feed)
      && UniqueKeys(r.value)
      && (forall e :: e in r.value ==> e.0 == e.1.id)
      && (forall k :: k !in Keys(feed) ==> Get(r.value, k) == Get(stored, k))
      && (forall k :: k in Keys(feed) ==>
            var fr, q := Get(feed, k).value, Get(r.value, k).value;
            && q.createdAt == fr.raw.createdAt && q.content == fr.raw.content
            && q.review == fr.commentId
            && (fr.raw.user.login != "" ==> q.giver == Some(fr.raw.user.login))
            && (fr.receiverLogin != "" ==> q.receiver == Some(fr.receiverLogin))
            && q == AttachReaction(stored, fr))
      && ((forall e :: e in stored ==> LinksIn(e.1, ps)) ==> forall e :: e in r.value ==> LinksIn(e.1, ps))
  {
    match ReactionFailure(feed, ps)
    case Some(err) => Failure(err)
    case None =>
      var es := MapValues(feed, (fr: FeedReaction) => AttachReaction(stored, fr));
      var r := PutAll(stored, es);
      LoadedReactions(stored, feed, ps);
      Success(r)
  }

  lemma LoadedReactions(stored: Dict<string, Reaction>, feed: Dict<string, FeedReaction>, ps: Dict<string, Participant>)
    requires UniqueKeys(stored) && forall e :: e in stored ==> e.0 == e.1.id
    requires UniqueKeys(feed) && forall e :: e in feed ==> e.0 == e.1.raw.id
    requires forall e :: e in feed ==> !UnknownLogin(e.1, ps)
    ensures var r := PutAll(stored, MapValues(feed, (fr: FeedReaction) => AttachReaction(stored, fr)));
      && Keys(r) == Keys(stored) + Keys(feed)
      && UniqueKeys(r)
      && (forall k :: Get(r, k) == if k in Keys(feed) then Some(AttachReaction(stored, Get(feed, k).value)) else Get(stored, k))
      && (forall e :: e in r ==> e.0 == e.1.id)
      && ((forall e :: e in stored ==> LinksIn(e.1, ps)) ==> forall e :: e in r ==> LinksIn(e.1, ps))
  {
    var es := MapValues(feed, (fr: FeedReaction) => AttachReaction(stored, fr));
    var r := PutAll(stored, es);
    forall k ensures Get(r, k) == if k in Keys(feed) then Some(AttachReaction(stored, Get(feed, k).value)) else Get(stored, k) {
      GetPutAll(stored, es, k);
      GetMapValues(feed, (fr: FeedReaction) => AttachReaction(stored, fr), k);
    }
    AttachedEntries(stored, feed, ps);
  }

  /** Each attached reaction carries its own id and, when the stored ones do,
      links only to participants in memory. */
  lemma AttachedEntries(stored: Dict<string, Reaction>, feed: Dict<string, FeedReaction>, ps: Dict<string, Participant>)
    requires forall e :: e in stored ==> e.0 == e.1.id
    requires forall e :: e in feed ==> e.0 == e.1.raw.id
    requires forall e :: e in feed ==> !UnknownLogin(e.1, ps)
    ensures var es := MapValues(feed, (fr: FeedReaction) => AttachReaction(stored, fr));
      && (forall e :: e in es ==> e.0 == e.1.id)
      && ((forall e :: e in stored ==> LinksIn(e.1, ps)) ==> forall e :: e in es ==> LinksIn(e.1, ps))
  {
    var es := MapValues(feed, (fr: FeedReaction) => AttachReaction(stored, fr));
    forall i | 0 <= i < |es|
      ensures es[i].0 == es[i].1.id
      ensures (forall e :: e in stored ==> LinksIn(e.1, ps)) ==> LinksIn(es[i].1, ps)
    {
      assert feed[i] in feed;
      var base := Get(stored, feed[i].1.raw.id);
      if base.Some? {
        assert (feed[i].1.raw.id, base.value) in stored;
      }
    }
  }
}
