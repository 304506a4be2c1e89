/**
 * The persisted entities of the meta-review system and the store that holds
 * them. The store is the persistence sink seen as one consistent snapshot:
 * what a stage writes, the next stage reads back.
 */
module Entities {
  import opened Wrappers
  import opened Dict

  /** A reviewer, identified by login. */
  datatype Participant = Participant(
    login: string,
    name: string,
    score: real,
    rank: Option<int>,
    trend: Option<int>,
    weightFactor: real,
    posIn: int,
    weightedPosIn: real,
    posOut: int,
    negIn: int,
    weightedNegIn: real,
    negOut: int,
    lastActiveAt: Option<int>,
    punishment: real)

  /** A review comment, identified by its upstream id; `author` holds a login. */
  datatype Comment = Comment(
    id: string,
    body: string,
    diff: string,
    createdAt: int,
    lastEditedAt: Option<int>,
    author: Option<string>,
    score: real,
    pos: int,
    neg: int,
    weightedPos: real,
    weightedNeg: real)

  /** A reaction to a review comment; `giver` and `receiver` hold logins,
      `review` the id of the comment reacted to. */
  datatype Reaction = Reaction(
    id: string,
    createdAt: int,
    content: string,
    giver: Option<string>,
    receiver: Option<string>,
    review: string)

  datatype Store = Store(
    participants: Dict<string, Participant>,
    comments: Dict<string, Comment>,
    reactions: Dict<string, Reaction>)

  /** A participant as `get_or_create` makes it: nothing recorded yet. */
  function Fresh(login: string, name: string, initialWeight: real): Participant
  {
    Participant(login, name, 0.0, None, None, initialWeight, 0, 0.0, 0, 0, 0.0, 0, None, 0.0)
  }

  predicate ParticipantsKeyed(ps: Dict<string, Participant>)
  {
    UniqueKeys(ps) && forall e :: e in ps ==> e.0 == e.1.login
  }

  /** Every login a comment or a reaction refers to is a participant, and every
      reaction refers to a stored comment: the store's foreign keys hold. */
  predicate WellFormed(s: Store)
  {
    && ParticipantsKeyed(s.participants)
    && UniqueKeys(s.comments)
    && UniqueKeys(s.reactions)
    && (forall e :: e in s.comments ==>
          e.0 == e.1.id && (e.1.author.Some? ==> e.1.author.value in Keys(s.participants)))
    && (forall e :: e in s.reactions ==>
          && e.0 == e.1.id
          && e.1.review in Keys(s.comments)
          && (e.1.giver.Some? ==> e.1.giver.value in Keys(s.participants))
          && (e.1.receiver.Some? ==> e.1.receiver.value in Keys(s.participants)))
  }

  /** The ways a run aborts in the source: a `KeyError` on a dictionary
      lookup or an attribute read on a missing (`None`) object. */
  datatype Error =
    | MissingFeedComment(commentId: string)
    | AuthorlessEdit(commentId: string)
    | UnknownParticipant(login: string)
    | MissingGiver(reactionId: string)
}
