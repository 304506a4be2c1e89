/**
 * The last-active pass (`__update_time`): a participant's checkpoint moves to
 * the latest time they wrote or edited a comment, gave a reaction or
 * received one. The next run's score update skips only what is strictly
 * older than this checkpoint.
 */
module Activity {
  import opened Wrappers
  import opened Dict
  import opened Entities
  import opened Scoring

  /** One comparison of the loops at data.py:323-343: the first time seen sets
      the checkpoint, a later time moves it forward. */
  function Bump(at: Option<int>, t: int): Option<int>
  {
    if at.None? then Some(t) else if t > at.value then Some(t) else at
  }

  /** Bumping through every time in turn ends at the latest of them and the
      starting checkpoint. */
  function BumpAll(at: Option<int>, ts: seq<int>): (r: Option<int>)
    ensures r.None? <==> at.None? && ts == []
    ensures r.Some? && at.Some? ==> at.value <= r.value
    ensures r.Some? ==> forall k :: 0 <= k < |ts| ==> ts[k] <= r.value
    ensures r.Some? ==> r == at || r.value in ts
    decreases |ts|
  {
    if ts == [] then at
    else
      var r := BumpAll(Bump(at, ts[0]), ts[1..]);
      assert forall k :: 0 < k < |ts| ==> ts[k] == ts[1..][k - 1];
      r
  }

  /** The times of a comment: when it was written and, if it was, edited. */
  function CommentTimes(c: Comment): seq<int>
  {
    [c.createdAt] + (if c.lastEditedAt.Some? then [c.lastEditedAt.value] else [])
  }

  /** The times of the comments `login` wrote (`comment_set`). */
  function Authored(login: string, cs: Dict<string, Comment>): (ts: seq<int>)
    ensures forall t :: t in ts <==> exists e :: e in cs && e.1.author == Some(login) && t in CommentTimes(e.1)
  {
    if cs == [] then []
    else
      assert forall e :: e in cs <==> e == cs[0] || e in cs[1..];
      (if cs[0].1.author == Some(login) then CommentTimes(cs[0].1) else []) + Authored(login, cs[1..])
  }

  /** The times of the reactions `login` gave (`give`). */
  function GivenTimes(login: string, rs: Dict<string, Reaction>): (ts: seq<int>)
    ensures forall t :: t in ts <==> exists e :: e in rs && e.1.giver == Some(login) && e.1.createdAt == t
  {
    if rs == [] then []
    else
      assert forall e :: e in rs <==> e == rs[0] || e in rs[1..];
      (if rs[0].1.giver == Some(login) then [rs[0].1.createdAt] else []) + GivenTimes(login, rs[1..])
  }

  /** The times of the reactions `login` received (`receive`). */
  function ReceivedTimes(login: string, rs: Dict<string, Reaction>): (ts: seq<int>)
    ensures forall t :: t in ts <==> exists e :: e in rs && e.1.receiver == Some(login) && e.1.createdAt == t
  {
    if rs == [] then []
    else
      assert forall e :: e in rs <==> e == rs[0] || e in rs[1..];
      (if rs[0].1.receiver == Some(login) then [rs[0].1.createdAt] else []) + ReceivedTimes(login, rs[1..])
  }

  /** Every time the three loops visit, in their order. */
  function Stamps(login: string, cs: Dict<string, Comment>, rs: Dict<string, Reaction>): seq<int>
  {
    Authored(login, cs) + GivenTimes(login, rs) + ReceivedTimes(login, rs)
  }

  /** `t` is a time `login` had impact: a comment of theirs was written or
      edited, or they gave or received a reaction. */
  predicate ActiveAt(login: string, cs: Dict<string, Comment>, rs: Dict<string, Reaction>, t: int)
  {
    || (exists e :: e in cs && e.1.author == Some(login) && t in CommentTimes(e.1))
    || (exists e :: e in rs && e.1.giver == Some(login) && e.1.createdAt == t)
    || (exists e :: e in rs && e.1.receiver == Some(login) && e.1.createdAt == t)
  }

  lemma StampsAreActivity(login: string, cs: Dict<string, Comment>, rs: Dict<string, Reaction>)
    ensures forall t :: t in Stamps(login, cs, rs) <==> ActiveAt(login, cs, rs, t)
  {
  }

  /** The new checkpoint of participant `p`. */
  function Touch(p: Participant, cs: Dict<string, Comment>, rs: Dict<string, Reaction>): (q: Participant)
    ensures q == p.(lastActiveAt := q.lastActiveAt)
    ensures q.lastActiveAt.None? <==> p.lastActiveAt.None? && forall t :: !ActiveAt(p.login, cs, rs, t)
    ensures q.lastActiveAt.Some? && p.lastActiveAt.Some? ==> p.lastActiveAt.value <= q.lastActiveAt.value
    ensures q.lastActiveAt.Some? ==> forall t :: ActiveAt(p.login, cs, rs, t) ==> t <= q.lastActiveAt.value
    ensures q.lastActiveAt.Some? ==> q.lastActiveAt == p.lastActiveAt || ActiveAt(p.login, cs, rs, q.lastActiveAt.value)
  {
    CheckpointFacts(p, cs, rs);
    p.(lastActiveAt := BumpAll(p.lastActiveAt, Stamps(p.login, cs, rs)))
  }

  lemma CheckpointFacts(p: Participant, cs: Dict<string, Comment>, rs: Dict<string, Reaction>)
    ensures var at := BumpAll(p.lastActiveAt, Stamps(p.login, cs, rs));
      && (at.None? <==> p.lastActiveAt.None? && forall t :: !ActiveAt(p.login, cs, rs, t))
      && (at.Some? ==> forall t :: ActiveAt(p.login, cs, rs, t) ==> t <= at.value)
      && (at.Some? ==> at == p.lastActiveAt || ActiveAt(p.login, cs, rs, at.value))
  {
    var ts := Stamps(p.login, cs, rs);
    StampsAreActivity(p.login, cs, rs);
    var at := BumpAll(p.lastActiveAt, ts);
    forall t | ActiveAt(p.login, cs, rs, t) ensures t in ts {
    }
    forall t | ActiveAt(p.login, cs, rs, t) && at.Some? ensures t <= at.value {
      var k :| 0 <= k < |ts| && ts[k] == t;
    }
  }

  /** The whole pass over the participant table: only checkpoints change. */
  function UpdateTime(ps: Dict<string, Participant>, cs: Dict<string, Comment>, rs: Dict<string, Reaction>): (r: Dict<string, Participant>)
    ensures |r| == |ps| && Keys(r) == Keys(ps)
    ensures ParticipantsKeyed(ps) ==> ParticipantsKeyed(r)
    ensures forall i :: 0 <= i < |ps| ==> r[i] == (ps[i].0, Touch(ps[i].1, cs, rs))
  {
    if ps == [] then []
    else
      var rest := UpdateTime(ps[1..], cs, rs);
      var r := [(ps[0].0, Touch(ps[0].1, cs, rs))] + rest;
      assert r[0].0 == ps[0].0 && r[1..] == rest;
      r
  }

  /** After the pass, a reaction the participant gave or received is skipped
      by the next score update exactly when it is strictly older than their
      newest activity: the newest one(s) are counted again. */
  lemma BoundaryRecounted(p: Participant, cs: Dict<string, Comment>, rs: Dict<string, Reaction>, e: (string, Reaction))
    requires e in rs && (e.1.receiver == Some(p.login) || e.1.giver == Some(p.login))
    ensures Touch(p, cs, rs).lastActiveAt.Some?
    ensures !Skipped(e.1.createdAt, Touch(p, cs, rs).lastActiveAt) <==> e.1.createdAt == Touch(p, cs, rs).lastActiveAt.value
  {
    assert ActiveAt(p.login, cs, rs, e.1.createdAt);
  }
}
