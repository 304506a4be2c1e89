/**
 * The feed the handler consumes and its normalisation into three
 * dictionaries: comments by id, reactions by id and participants by login
 * (`MetaReviewHandler.__init__`).
 */
module Normalizer {
  import opened Wrappers
  import opened Dict

  /** A GitHub account; deleted accounts surface with an empty login. */
  datatype User = User(login: string, name: string)

  /** A reaction record of the feed, its timestamp already parsed. */
  datatype RawReaction = RawReaction(id: string, createdAt: int, content: string, user: User)

  /** A review comment record of the feed, its timestamps already parsed. */
  datatype RawComment = RawComment(
    id: string,
    createdAt: int,
    lastEditedAt: Option<int>,
    bodyText: string,
    diffHunk: string,
    author: User,
    reactions: seq<RawReaction>)

  datatype PullRequest = PullRequest(comments: seq<RawComment>)

  /** An issue of the feed; only issues carrying a pull request matter. */
  datatype Issue = Issue(pullRequest: Option<PullRequest>)

  /** A reaction stamped with its receiver's login and its comment's id. */
  datatype FeedReaction = FeedReaction(raw: RawReaction, receiverLogin: string, commentId: string)

  datatype Normalised = Normalised(
    comments: Dict<string, RawComment>,
    reactions: Dict<string, FeedReaction>,
    participants: Dict<string, User>)

  /** The comments of the issues that carry a pull request, in feed order. */
  function PrComments(issues: seq<Issue>): seq<RawComment>
  {
    if issues == [] then []
    else
      (match issues[0].pullRequest
       case Some(pr) => pr.comments
       case None => [])
      + PrComments(issues[1..])
  }

  lemma {:induction false} PrCommentsAppend(a: seq<Issue>, b: seq<Issue>)
    ensures PrComments(a + b) == PrComments(a) + PrComments(b)
  {
    if a == [] {
      assert a + b == b;
    } else {
      assert (a + b)[0] == a[0];
      assert (a + b)[1..] == a[1..] + b;
      PrCommentsAppend(a[1..], b);
    }
  }

  function CommentEntries(cs: seq<RawComment>): (es: seq<(string, RawComment)>)
    ensures |es| == |cs|
    ensures forall i :: 0 <= i < |cs| ==> es[i] == (cs[i].id, cs[i])
    ensures forall e :: e in es ==> e.1 in cs && e.0 == e.1.id
  {
    if cs == [] then [] else [(cs[0].id, cs[0])] + CommentEntries(cs[1..])
  }

  /** The comments dictionary: a later comment with the same id overwrites the earlier one. */
  function IndexComments(issues: seq<Issue>): (d: Dict<string, RawComment>)
    ensures UniqueKeys(d)
    ensures forall e :: e in d ==> e.0 == e.1.id && e.1 in PrComments(issues)
    ensures forall c :: c in PrComments(issues) ==> c.id in Keys(d)
    ensures forall k :: k in Keys(d) ==>
      exists i :: LastWithId(PrComments(issues), k, i) && Get(d, k) == Some(PrComments(issues)[i])
  {
    var cs := PrComments(issues);
    var d := PutAll([], CommentEntries(cs));
    IndexedLast(cs, d);
    d
  }

  /** `cs[i]` is the last comment of `cs` with id `k`. */
  predicate LastWithId(cs: seq<RawComment>, k: string, i: int)
  {
    0 <= i < |cs| && cs[i].id == k && forall j :: i < j < |cs| ==> cs[j].id != k
  }

  /** Every comment's id is indexed, and it holds the last comment with that id. */
  lemma IndexedLast(cs: seq<RawComment>, d: Dict<string, RawComment>)
    requires d == PutAll([], CommentEntries(cs))
    ensures forall c :: c in cs ==> c.id in Keys(d)
    ensures forall k :: k in Keys(d) ==> exists i :: LastWithId(cs, k, i) && Get(d, k) == Some(cs[i])
  {
    var es := CommentEntries(cs);
    forall c | c in cs ensures c.id in Keys(d) {
      var i :| 0 <= i < |cs| && cs[i] == c;
      assert es[i] in es;
    }
    forall k | k in Keys(d) ensures exists i :: LastWithId(cs, k, i) && Get(d, k) == Some(cs[i]) {
      var i := PutAllLast([], es, k);
      forall j | i < j < |cs| ensures cs[j].id != k {
        assert es[j] in es[i + 1..];
      }
      assert LastWithId(cs, k, i);
    }
  }

  /** The reactions of one comment, each stamped with the comment's author and id. */
  function Stamp(c: RawComment): (es: seq<(string, FeedReaction)>)
    ensures forall e :: e in es ==>
      e.0 == e.1.raw.id && e.1.raw in c.reactions
      && e.1.receiverLogin == c.author.login && e.1.commentId == c.id
    ensures forall x :: x in c.reactions ==> (x.id, FeedReaction(x, c.author.login, c.id)) in es
  {
    var es := seq(|c.reactions|, i requires 0 <= i < |c.reactions| =>
      (c.reactions[i].id, FeedReaction(c.reactions[i], c.author.login, c.id)));
    assert forall x :: x in c.reactions ==> (x.id, FeedReaction(x, c.author.login, c.id)) in es by {
      forall x | x in c.reactions ensures (x.id, FeedReaction(x, c.author.login, c.id)) in es {
        var i :| 0 <= i < |c.reactions| && c.reactions[i] == x;
        assert es[i] == (x.id, FeedReaction(x, c.author.login, c.id));
      }
    }
    es
  }

  /** The stamped reactions of every comment, in dictionary order. */
  function StampAll(cd: Dict<string, RawComment>): (es: seq<(string, FeedReaction)>)
    ensures forall e :: e in es ==> exists c :: c in cd && e in Stamp(c.1)
    ensures forall c, x :: c in cd && x in c.1.reactions ==> (x.id, FeedReaction(x, c.1.author.login, c.1.id)) in es
  {
    if cd == [] then []
    else
      var rest := StampAll(cd[1..]);
      assert forall e :: e in rest ==> exists c :: c in cd && e in Stamp(c.1) by {
        forall e | e in rest ensures exists c :: c in cd && e in Stamp(c.1) {
          var c :| c in cd[1..] && e in Stamp(c.1);
          assert c in cd;
        }
      }
      var es := Stamp(cd[0].1) + rest;
      assert forall c, x :: c in cd && x in c.1.reactions ==> (x.id, FeedReaction(x, c.1.author.login, c.1.id)) in es by {
        forall c, x | c in cd && x in c.1.reactions
          ensures (x.id, FeedReaction(x, c.1.author.login, c.1.id)) in es
        {
          if c != cd[0] { assert c in cd[1..]; }
        }
      }
      es
  }

  /** The reactions dictionary built from the comments dictionary: every
      reaction of every comment is indexed under its id, and an id holds the
      last reaction written under it. */
  function IndexReactions(cd: Dict<string, RawComment>): (d: Dict<string, FeedReaction>)
    ensures UniqueKeys(d)
    ensures forall c, x :: c in cd && x in c.1.reactions ==> x.id in Keys(d)
    ensures forall k :: k in Keys(d) ==>
      exists i :: LastWrite(StampAll(cd), k, i) && Get(d, k) == Some(StampAll(cd)[i].1)
  {
    var d := PutAll([], StampAll(cd));
    ReactionsIndexed(cd, d);
    d
  }

  /** Every stamped reaction's id is a key, holding its last write. */
  lemma ReactionsIndexed(cd: Dict<string, RawComment>, d: Dict<string, FeedReaction>)
    requires d == PutAll([], StampAll(cd))
    ensures forall c, x :: c in cd && x in c.1.reactions ==> x.id in Keys(d)
    ensures forall k :: k in Keys(d) ==>
      exists i :: LastWrite(StampAll(cd), k, i) && Get(d, k) == Some(StampAll(cd)[i].1)
  {
    var es := StampAll(cd);
    assert Keys(d) == Keys(es);
    forall c, x | c in cd && x in c.1.reactions ensures x.id in Keys(d) {
      var e := (x.id, FeedReaction(x, c.1.author.login, c.1.id));
      assert e in es;
    }
    forall k | k in Keys(d) ensures exists i :: LastWrite(es, k, i) && Get(d, k) == Some(es[i].1) {
      var i := PutAllLast([], es, k);
    }
  }

  /** Every reaction of an indexed comment is indexed, and every indexed
      reaction points at a comment of the dictionary and is received by that
      comment's author. */
  lemma ReactionsStamped(issues: seq<Issue>)
    ensures forall e, x :: e in IndexComments(issues) && x in e.1.reactions ==>
      x.id in Keys(IndexReactions(IndexComments(issues)))
    ensures forall e :: e in IndexReactions(IndexComments(issues)) ==>
      e.0 == e.1.raw.id
      && Get(IndexComments(issues), e.1.commentId).Some?
      && e.1.raw in Get(IndexComments(issues), e.1.commentId).value.reactions
      && e.1.receiverLogin == Get(IndexComments(issues), e.1.commentId).value.author.login
  {
    var cd := IndexComments(issues);
    forall e | e in IndexReactions(cd)
      ensures e.0 == e.1.raw.id
      ensures Get(cd, e.1.commentId).Some?
      ensures e.1.raw in Get(cd, e.1.commentId).value.reactions
      ensures e.1.receiverLogin == Get(cd, e.1.commentId).value.author.login
    {
      assert e in StampAll(cd);
      var c :| c in cd && e in Stamp(c.1);
      GetEntry(cd, c.0, c.1);
    }
  }

  /** `l` is the comment's author or one of its reactors. */
  predicate Mentions(c: RawComment, l: string)
  {
    l == c.author.login || exists r :: r in c.reactions && r.user.login == l
  }

  /** Who the loop at data.py:74-91 registers for one comment, guard as written:
      every reactor, but only when the comment's AUTHOR has a login. */
  function RegisterAsWritten(c: RawComment): seq<(string, User)>
  {
    if c.author.login != "" then
      [(c.author.login, c.author)]
      + seq(|c.reactions|, i requires 0 <= i < |c.reactions| =>
          (c.reactions[i].user.login, c.reactions[i].user))
    else []
  }

  /** Who the loop registers for one comment with the guard testing each
      reactor's own login, as the comment above the guard intends. */
  function Register(c: RawComment): (es: seq<(string, User)>)
    ensures forall e :: e in es ==> e.0 == e.1.login && e.0 != ""
    ensures forall l :: l in Keys(es) <==>
      l != "" && (l == c.author.login || exists r :: r in c.reactions && r.user.login == l)
  {
    var es := (if c.author.login != "" then [(c.author.login, c.author)] else [])
      + Reactors(c.reactions);
    forall l ensures l in Keys(es) <==>
      l != "" && (l == c.author.login || exists r :: r in c.reactions && r.user.login == l)
    {
      KeysMember(es, l);
      if exists r :: r in c.reactions && r.user.login == l && l != "" {
        var r :| r in c.reactions && r.user.login == l && l != "";
        assert (l, r.user) in es;
      }
      if l == c.author.login && l != "" {
        assert (l, c.author) in es;
      }
    }
    es
  }

  /** The reactors with a login, in order. */
  function Reactors(rs: seq<RawReaction>): (es: seq<(string, User)>)
    ensures forall e :: e in es <==> e.0 != "" && exists r :: r in rs && r.user == e.1 && e.0 == r.user.login
  {
    if rs == [] then []
    else
      var rest := Reactors(rs[1..]);
      assert forall r :: r in rs <==> r == rs[0] || r in rs[1..];
      (if rs[0].user.login != "" then [(rs[0].user.login, rs[0].user)] else []) + rest
  }

  function RegisterAllAsWritten(cd: Dict<string, RawComment>): seq<(string, User)>
  {
    if cd == [] then [] else RegisterAsWritten(cd[0].1) + RegisterAllAsWritten(cd[1..])
  }

  function RegisterAll(cd: Dict<string, RawComment>): (es: seq<(string, User)>)
    ensures forall e :: e in es <==> exists c :: c in cd && e in Register(c.1)
  {
    if cd == [] then []
    else
      assert forall c :: c in cd <==> c == cd[0] || c in cd[1..];
      Register(cd[0].1) + RegisterAll(cd[1..])
  }

  /** The participants dictionary as the source builds it. */
  function ParticipantsAsWritten(cd: Dict<string, RawComment>): Dict<string, User>
  {
    PutAll([], RegisterAllAsWritten(cd))
  }

  /** The participants dictionary with the reactor guard corrected: exactly the
      non-empty logins of comment authors and reactors are registered. */
  function Participants(cd: Dict<string, RawComment>): (d: Dict<string, User>)
    ensures UniqueKeys(d)
    ensures forall e :: e in d ==> e.0 == e.1.login
    ensures forall l :: l in Keys(d) <==>
      l != "" && (exists c :: c in cd && Mentions(c.1, l))
  {
    var es := RegisterAll(cd);
    var d := PutAll([], es);
    forall l ensures l in Keys(d) <==>
      l != "" && (exists c :: c in cd && Mentions(c.1, l))
    {
      KeysMember(es, l);
      if l in Keys(d) {
        var e :| e in es && e.0 == l;
        var c :| c in cd && e in Register(c.1);
        KeysMember(Register(c.1), l);
      }
      if l != "" && (exists c :: c in cd && Mentions(c.1, l))
      {
        var c :| c in cd && Mentions(c.1, l);
        KeysMember(Register(c.1), l);
        var e :| e in Register(c.1) && e.0 == l;
        assert e in es;
      }
    }
    d
  }

  /** `MetaReviewHandler.__init__` with the corrected reactor guard. */
  function Normalise(issues: seq<Issue>): (n: Normalised)
  {
    var cd := IndexComments(issues);
    Normalised(cd, IndexReactions(cd), Participants(cd))
  }

  /** `MetaReviewHandler.__init__` as written. */
  function NormaliseAsWritten(issues: seq<Issue>): (n: Normalised)
  {
    var cd := IndexComments(issues);
    Normalised(cd, IndexReactions(cd), ParticipantsAsWritten(cd))
  }

  /** An issue without a pull request contributes nothing, wherever it stands. */
  lemma NoPullRequestIgnored(a: seq<Issue>, b: seq<Issue>)
    ensures Normalise(a + [Issue(None)] + b) == Normalise(a + b)
    ensures NormaliseAsWritten(a + [Issue(None)] + b) == NormaliseAsWritten(a + b)
  {
    PrCommentsAppend(a + [Issue(None)], b);
    PrCommentsAppend(a, [Issue(None)]);
    PrCommentsAppend(a, b);
    assert PrComments([Issue(None)]) == [];
    assert PrComments(a + [Issue(None)]) == PrComments(a);
    assert PrComments(a + [Issue(None)] + b) == PrComments(a + b);
  }

  /** Every non-empty login that an indexed reaction names, as giver or as
      receiver, is a registered participant; the empty login never is. */
  lemma ReactionLoginsRegistered(issues: seq<Issue>)
    ensures "" !in Keys(Normalise(issues).participants)
    ensures forall e :: e in Normalise(issues).reactions ==>
      (e.1.raw.user.login != "" ==> e.1.raw.user.login in Keys(Normalise(issues).participants))
      && (e.1.receiverLogin != "" ==> e.1.receiverLogin in Keys(Normalise(issues).participants))
  {
    var n := Normalise(issues);
    ReactionsStamped(issues);
    forall e | e in n.reactions
      ensures e.1.raw.user.login != "" ==> e.1.raw.user.login in Keys(n.participants)
      ensures e.1.receiverLogin != "" ==> e.1.receiverLogin in Keys(n.participants)
    {
      var c := Get(n.comments, e.1.commentId).value;
      assert (e.1.commentId, c) in n.comments;
    }
  }

  /** A feed of one pull-request comment by a deleted account that received a
      reaction from "bob". */
  function DeletedAuthorFeed(): seq<Issue>
  {
    [Issue(Some(PullRequest([
      RawComment("c1", 10, None, "", "", User("", ""),
        [RawReaction("r1", 20, "THUMBS_UP", User("bob", "Bob"))])])))]
  }

  /** The guard as written tests the author's login: "bob" reacted, but is not
      registered, while the corrected guard registers "bob". */
  lemma ReactorGuardCounterexample()
    ensures NormaliseAsWritten(DeletedAuthorFeed()).participants == []
    ensures "bob" !in Keys(NormaliseAsWritten(DeletedAuthorFeed()).participants)
    ensures "bob" in Keys(Normalise(DeletedAuthorFeed()).participants)
    ensures exists e :: (e in NormaliseAsWritten(DeletedAuthorFeed()).reactions
      && e.1.raw.user.login == "bob")
  {
    var feed := DeletedAuthorFeed();
    var c := feed[0].pullRequest.value.comments[0];
    assert PrComments(feed) == [c];
    assert CommentEntries([c]) == [("c1", c)];
    var cd := IndexComments(feed);
    assert cd == [("c1", c)];
    assert RegisterAllAsWritten(cd) == [];
    assert Stamp(c) == [("r1", FeedReaction(c.reactions[0], "", "c1"))];
    assert IndexReactions(cd) == [("r1", FeedReaction(c.reactions[0], "", "c1"))];
    assert c.reactions[0] in c.reactions;
  }

  /** A feed of one pull-request comment by "alice" that received a reaction
      from a deleted account. */
  function DeletedReactorFeed(): seq<Issue>
  {
    [Issue(Some(PullRequest([
      RawComment("c1", 10, None, "", "", User("alice", "Alice"),
        [RawReaction("r1", 20, "THUMBS_UP", User("", ""))])])))]
  }

  /** The guard as written lets a deleted reactor through when the author is
      live: the empty login is registered as a participant. */
  lemma DeletedReactorRegistered()
    ensures Keys(NormaliseAsWritten(DeletedReactorFeed()).participants) == {"alice", ""}
  {
    var c := DeletedReactorIndexed();
    LiveAuthorDeletedReactor(c);
  }

  /** The corrected guard registers only "alice" for the same feed. */
  lemma DeletedReactorSkipped()
    ensures Keys(Normalise(DeletedReactorFeed()).participants) == {"alice"}
  {
    var c := DeletedReactorIndexed();
    LiveAuthorOnly(c);
  }

  /** As written, one comment by "alice" whose only reactor is deleted
      registers both logins. */
  lemma LiveAuthorDeletedReactor(c: RawComment)
    requires c.author.login == "alice" && |c.reactions| == 1 && c.reactions[0].user.login == ""
    ensures Keys(ParticipantsAsWritten([("c1", c)])) == {"alice", ""}
  {
    var es := [("alice", c.author), ("", c.reactions[0].user)];
    assert RegisterAsWritten(c) == es;
    assert RegisterAllAsWritten([("c1", c)]) == es;
    assert Keys(es) == {"alice"} + Keys(es[1..]);
  }

  /** Corrected, the same comment registers "alice" alone. */
  lemma LiveAuthorOnly(c: RawComment)
    requires c.author.login == "alice" && |c.reactions| == 1 && c.reactions[0].user.login == ""
    ensures Keys(Participants([("c1", c)])) == {"alice"}
  {
    var cd := [("c1", c)];
    assert cd[0] in cd && Mentions(cd[0].1, "alice");
    forall l | l in Keys(Participants(cd)) ensures l == "alice" {
      var e :| e in cd && Mentions(e.1, l);
      assert e == cd[0];
      assert forall r :: r in c.reactions ==> r == c.reactions[0];
    }
  }

  /** The comment dictionary of that feed. */
  lemma DeletedReactorIndexed() returns (c: RawComment)
    ensures c == DeletedReactorFeed()[0].pullRequest.value.comments[0]
    ensures IndexComments(DeletedReactorFeed()) == [("c1", c)]
  {
    var feed := DeletedReactorFeed();
    c := feed[0].pullRequest.value.comments[0];
    assert PrComments(feed) == [c];
    assert CommentEntries([c]) == [("c1", c)];
  }

}
