/**
 * The late-edit punishment (`__check_comment_update`): the author of a comment
 * edited after one of its reactions was given loses 0.5 points, once per
 * comment however many reactions predate the edit.
 */
module Punishment {
  import opened Wrappers
  import opened Dict
  import opened Entities

  const Penalty: real := 0.5

  /** The loop at data.py:140-145 over the reactions stored for comment `commentId`. */
  function EditedAfterReaction(lastEditedAt: Option<int>, reactions: Dict<string, Reaction>, commentId: string): bool
  {
    if reactions == [] then false
    else
      (reactions[0].1.review == commentId
        && lastEditedAt.Some? && lastEditedAt.value > reactions[0].1.createdAt)
      || EditedAfterReaction(lastEditedAt, reactions[1..], commentId)
  }

  /** The comment needs punishing: it was edited after a reaction to it. */
  predicate NeedsPunishment(c: Comment, reactions: Dict<string, Reaction>)
  {
    EditedAfterReaction(c.lastEditedAt, reactions, c.id)
  }

  /** The loop's flag is set exactly when the comment has an edit time and
      some reaction to it was created strictly before that time. */
  lemma {:induction false} NeedsPunishmentExactly(c: Comment, reactions: Dict<string, Reaction>)
    ensures NeedsPunishment(c, reactions) <==>
      c.lastEditedAt.Some? &&
      exists e :: e in reactions && e.1.review == c.id && c.lastEditedAt.value > e.1.createdAt
  {
    if reactions != [] {
      NeedsPunishmentExactly(c, reactions[1..]);
      assert forall e :: e in reactions <==> e == reactions[0] || e in reactions[1..];
    }
  }

  /** How many comments of `login` need punishing. */
  function Offences(login: string, comments: Dict<string, Comment>, reactions: Dict<string, Reaction>): (n: nat)
    ensures n <= |comments|
  {
    if comments == [] then 0
    else
      (if comments[0].1.author == Some(login) && NeedsPunishment(comments[0].1, reactions) then 1 else 0)
      + Offences(login, comments[1..], reactions)
  }

  function Penalise(p: Participant, offences: nat): Participant
  {
    p.(score := p.score - Penalty * offences as real,
       punishment := p.punishment + Penalty * offences as real)
  }

  /** Every comment checked in `__load_comments_to_memory` punishes its author. */
  function Punish(ps: Dict<string, Participant>, comments: Dict<string, Comment>, reactions: Dict<string, Reaction>): (r: Dict<string, Participant>)
    ensures Keys(r) == Keys(ps) && |r| == |ps|
    ensures ParticipantsKeyed(ps) ==> ParticipantsKeyed(r)
    ensures forall i :: 0 <= i < |ps| ==>
      var p, q := ps[i].1, r[i].1;
      && r[i].0 == ps[i].0
      && q == p.(score := q.score, punishment := q.punishment)
      && q.score + q.punishment == p.score + p.punishment
      && 0.0 <= q.punishment - p.punishment <= Penalty * |comments| as real
      && (q.punishment - p.punishment == Penalty * Offences(p.login, comments, reactions) as real)
  {
    MapValues(ps, (p: Participant) => Penalise(p, Offences(p.login, comments, reactions)))
  }

  /** A participant none of whose comments was edited after a reaction keeps
      score and punishment. */
  lemma {:induction false} NoOffenceNoChange(login: string, comments: Dict<string, Comment>, reactions: Dict<string, Reaction>)
    requires forall e :: e in comments && e.1.author == Some(login) ==> !NeedsPunishment(e.1, reactions)
    ensures Offences(login, comments, reactions) == 0
  {
    if comments != [] {
      assert comments[0] in comments;
      NoOffenceNoChange(login, comments[1..], reactions);
    }
  }

  /** Offences add up over a split of the comment table: each comment is
      judged on its own. */
  lemma {:induction false} OffencesAppend(login: string, a: Dict<string, Comment>, b: Dict<string, Comment>, reactions: Dict<string, Reaction>)
    ensures Offences(login, a + b, reactions) == Offences(login, a, reactions) + Offences(login, b, reactions)
  {
    if a == [] {
      assert a + b == b;
    } else {
      assert (a + b)[0] == a[0] && (a + b)[1..] == a[1..] + b;
      OffencesAppend(login, a[1..], b, reactions);
    }
  }

  /** A single offending comment costs exactly one penalty, however many of
      its reactions predate the edit; with OffencesAppend, every offending
      comment of the author costs one penalty. */
  lemma OneCommentOnePenalty(login: string, c: Comment, reactions: Dict<string, Reaction>)
    requires c.author == Some(login)
    ensures Offences(login, [(c.id, c)], reactions) == if NeedsPunishment(c, reactions) then 1 else 0
  {
  }

  /** The example of a comment created at 0 and edited at 60, with reactions at
      30 (before the edit) and 120 (after it): one penalty of 0.5. */
  lemma EditExample()
    ensures var c := Comment("c", "", "", 0, Some(60), Some("alice"), 0.0, 0, 0, 0.0, 0.0);
            var rs := [("r1", Reaction("r1", 30, "THUMBS_UP", Some("bob"), Some("alice"), "c")),
                       ("r2", Reaction("r2", 120, "THUMBS_UP", Some("carol"), Some("alice"), "c"))];
            var p := Participant("alice", "Alice", 2.0, None, None, 0.5, 0, 0.0, 0, 0, 0.0, 0, None, 0.0);
            Punish([("alice", p)], [("c", c)], rs) == [("alice", p.(score := 1.5, punishment := 0.5))]
  {
    var c := Comment("c", "", "", 0, Some(60), Some("alice"), 0.0, 0, 0, 0.0, 0.0);
    var rs := [("r1", Reaction("r1", 30, "THUMBS_UP", Some("bob"), Some("alice"), "c")),
               ("r2", Reaction("r2", 120, "THUMBS_UP", Some("carol"), Some("alice"), "c"))];
    assert NeedsPunishment(c, rs);
    assert Offences("alice", [("c", c)], rs) == 1;
  }

  /** Punishment keeps no record of comments already punished: checking the
      same comments again deducts the same amount again. */
  lemma PunishmentRefires(ps: Dict<string, Participant>, comments: Dict<string, Comment>, reactions: Dict<string, Reaction>)
    ensures var once := Punish(ps, comments, reactions);
      var twice := Punish(once, comments, reactions);
      forall i :: 0 <= i < |ps| ==>
        twice[i].1.punishment - once[i].1.punishment == once[i].1.punishment - ps[i].1.punishment
  {
    var once := Punish(ps, comments, reactions);
    forall i | 0 <= i < |ps|
      ensures once[i].1.login == ps[i].1.login
    {
    }
  }
}
