# Meta-review scoring, modelled in Dafny

The meta-review system scores the reviewers of a GitHub organisation. The
review comments on pull requests receive emoji reactions (THUMBS_UP,
THUMBS_DOWN, …). These reactions are meta-reviews: judgements of a review
by other people. One run of `MetaReviewHandler` (meta_review/data.py) does
the following:

1. It normalises the issue feed into three dictionaries: comments by id,
   reactions by id and participants by login.
2. It loads those dictionaries into the store:
   - participants are created or attached to their history;
   - stored comments are refreshed from the feed;
   - an author who edited a comment after it was reacted to is punished
     with 0.5 points;
   - reactions are created or updated.
3. It updates, in this order:
   - the scores, as S = P1 − N1 + 0.05·P2 + 0.2·N2. P1 and N1 are the
     THUMBS_UP and THUMBS_DOWN reactions received, each weighted by its
     giver's weight factor. P2 and N2 are the reactions given. Only
     reactions not older than the participant's last-active checkpoint are
     counted.
   - the dense ranks and trends;
   - the weight factors for the next run (score / max score, scaled into
     [0.1, 1], or 0 for a negative score);
   - the last-active checkpoints.

## Project layout

The modules follow the stages of the run:

| file | module | what it holds |
|---|---|---|
| wrappers.dfy | Wrappers | `Option` and `Result` |
| dict.dfy | Dict | insertion-ordered dictionaries with Python's `d[k] = v` semantics |
| text.dfy | Text | Python's `str.find` |
| normalizer.dfy | Normalizer | the feed and `__init__`, with the as-written and the corrected reactor guard |
| entities.dfy | Entities | participants, comments, reactions, the store and its foreign keys, run errors |
| punishment.dfy | Punishment | `__check_comment_update` |
| loader.dfy | Loader | the three `__load_*_to_memory` stages |
| scoring.dfy | Scoring | `__update_score` |
| ranking.dfy | Ranking | `__update_rankings`, in closed form and as the source's loop |
| weights.dfy | Weights | `__update_weight_factors` |
| activity.dfy | Activity | `__update_time` |
| pipeline.dfy | Pipeline | `handle`: load, then update, with the abort paths |

Modelling choices:

- **Dictionaries.** The source's dictionaries and tables are sequences of
  key/value pairs in insertion order. Writing an existing key keeps its
  position and replaces its value, as a Python dict does.
- **Relation scans.** Every scan of an ORM relation (`receive.all()`,
  `give.all()`, `comment_set.all()`, `reaction_set.all()`) is a fold over
  the whole table, filtered by the foreign key.
- **Aborts.** A `KeyError`, or an attribute read on `None`, aborts the
  source's run. Here it is a `Failure` carrying the `Error` that says
  which lookup failed.

## Model

| member | source | states |
|---|---|---|
| Normalizer.IndexComments | meta_review/data.py:44-54 | the keys are exactly the ids of the comments of issues that carry a pull request, with no duplicate key; each id maps to the last comment carrying it, as repeated `d[k] = v` leaves it |
| Dict.PutAllLast | meta_review/data.py:45-54 | after a run of `d[k] = v` writes, a key that was written maps to the value of its last write |
| Dict.PutAllUntouched | meta_review/data.py:45-54 | a key that no write names keeps its earlier value |
| Normalizer.NoPullRequestIgnored | meta_review/data.py:46-49 | an issue without a pull request changes nothing, wherever it stands in the feed, for both normalisers |
| Normalizer.IndexReactions | meta_review/data.py:56-69 | the reaction dictionary has no duplicate key; every reaction of every indexed comment is indexed under its id; each id maps to the last reaction stamped with it, in comment order, as repeated `d[k] = v` leaves it |
| Normalizer.ReactionsStamped | meta_review/data.py:56-69 | every reaction of an indexed comment is indexed; every indexed reaction sits under its own id and names a comment of the dictionary that holds it; its receiver is that comment's author |
| Normalizer.Participants | meta_review/data.py:72-91 | with the guard testing each reactor's own login, the registered logins are exactly the non-empty logins of comment authors and reactors |
| Normalizer.ReactionLoginsRegistered | meta_review/data.py:72-91 | the empty login is never registered, and every non-empty giver or receiver login of an indexed reaction is |
| Normalizer.ReactorGuardCounterexample | meta_review/data.py:89-91 | as written, a deleted comment author hides its reactor "bob": nobody is registered, yet the reaction by "bob" is indexed |
| Normalizer.DeletedReactorRegistered | meta_review/data.py:80-91 | as written, a comment by "alice" with a reaction by a deleted account registers the logins "alice" and the empty login |
| Normalizer.DeletedReactorSkipped | meta_review/data.py:80-91 | with the guard testing the reactor's own login, the same feed registers "alice" alone |
| Punishment.NeedsPunishmentExactly | meta_review/data.py:140-145 | the punishment flag is set iff the comment has an edit time strictly later than the creation time of some reaction to it |
| Punishment.Punish | meta_review/data.py:147-152 | each author loses 0.5 per offending comment from the score and gains it as punishment; score + punishment is unchanged and nothing else changes |
| Punishment.NoOffenceNoChange | meta_review/data.py:140-152 | an author none of whose comments was edited after a reaction is not punished |
| Punishment.OffencesAppend | meta_review/data.py:137-152 | the offences of an author over a table split in two are the sum over the two parts: each comment is judged on its own |
| Punishment.OneCommentOnePenalty | meta_review/data.py:143-151 | one offending comment costs one penalty, however many reactions predate the edit |
| Punishment.EditExample | meta_review/data.py:129-152 | edited at 60 with reactions at 30 and 120: exactly one penalty, score 2.0 becomes 1.5 |
| Punishment.PunishmentRefires | meta_review/data.py:147-152 | nothing records that a comment was punished: checking the same comments again deducts the same amount again |
| Loader.LoadParticipants | meta_review/data.py:164-196 | feed participants keep their stored history under the feed's name or are created fresh; stored participants the feed omits are kept unchanged; logins are unique |
| Loader.CommentFailure | meta_review/data.py:241-252 | the loop fails iff some comment in table order is missing from the feed or is to be punished without an author; the error is that of the first such comment, and every comment before it passes |
| Loader.LoadComments | meta_review/data.py:203-258 | the comment table ends keyed exactly by the feed's comments; each is refreshed from the feed and keeps its stored author when the feed has none; the authors are punished by Punish; the stage fails iff `CommentFailure` finds a comment of the stored-then-new table that does not pass, with that comment's error; a stored comment missing from the feed aborts |
| Loader.ReactionFailure | meta_review/data.py:285-290 | the load fails iff some feed reaction names a non-empty giver or receiver login not in memory; the error names the first such reaction's giver when the giver is unknown, else its receiver, and that login is not in memory |
| Loader.RefreshedComments | meta_review/data.py:239-254 | the refreshed table is keyed exactly by the feed's comments, without duplicates; each entry takes body, diff and times from the feed, and its author from the feed's login when there is one, else the stored author |
| Loader.LoadReactions | meta_review/data.py:261-299 | feed reactions are created or updated from the feed, others stay as stored; giver and receiver change only when the feed names a login; links stay within the participants in memory |
| Scoring.ClassifyExamples | meta_review/data.py:401-418 | THUMBS_UP is tested first: content naming both kinds is positive, content naming neither is ignored |
| Scoring.Received | meta_review/data.py:388-421 | the reactions counted for a receiver are at most the table's, and with weights in [0,1] each weighted sum is between 0 and its count |
| Scoring.Given | meta_review/data.py:424-445 | the given counts are non-negative and at most the number of reactions in the table |
| Scoring.GivenCounted | meta_review/data.py:424-445 | a reaction a participant gave at or after their checkpoint adds one to P2 if it is a THUMBS_UP, one to N2 if it is a THUMBS_DOWN, and nothing otherwise |
| Scoring.CountedPositiveTallied | meta_review/data.py:398-411 | a counted THUMBS_UP on a comment gives that comment a positive tally of at least one |
| Scoring.GiverFailure | meta_review/data.py:400 | reading the giver's weight fails iff some reaction counted for its receiver has no giver in memory |
| Scoring.UpdateScores | meta_review/data.py:376-466 | per participant, only the counters and the score change; the score moves by the growth of weighted_pos_in minus that of weighted_neg_in, plus 0.05 per THUMBS_UP and 0.2 per THUMBS_DOWN given; each counter grows by what the folds count; keys and order stay; each comment's tallies grow by the weights of the counted reactions on it |
| Scoring.CommentTallyLost | meta_review/data.py:405-418 | as written, a counted THUMBS_UP leaves the comment's stored tally unchanged, while the corrected update raises it |
| Scoring.ReceivedAppend | meta_review/data.py:388-421 | the received tally of a table split in two is the sum of the tallies of its parts, so reactions count independently |
| Scoring.SkippedReactionIgnored | meta_review/data.py:389-397 | a reaction strictly older than the checkpoint changes neither the receiver's nor the giver's tallies, nor its comment's |
| Scoring.CountedReactionCredited | meta_review/data.py:398-418 | a received reaction at or after the checkpoint adds its giver's weight to P1 or N1, and the same weight to its comment |
| Scoring.CommentMirrorsReceiver | meta_review/data.py:405-418 | a comment whose reactions are exactly its author's received reactions gets the author's received tally |
| Scoring.ScoreExample | meta_review/data.py:448-466 | checkpoint 100, a THUMBS_UP of weight 0.5 at 101 and a THUMBS_DOWN of weight 0.3 at 102: score +0.2, one more each of pos_in and neg_in |
| Ranking.DenseRankOrder | meta_review/data.py:482-485 | dense ranks lie in 1..number of distinct scores; equal scores share a rank iff equal, and a higher score gets a strictly smaller rank |
| Ranking.UpdateRankings | meta_review/data.py:479-511 | only rank and trend change; ranks lie in 1..n; equal scores iff equal ranks; a higher score gets a smaller rank; a top scorer has rank 1; each rank is the dense rank of the score, one more than the number of distinct higher scores; ranks leave no gap; the trend is the old rank minus the new one when there was a rank; the table keeps its order, and any two rows compare by rank as they do by score |
| Ranking.RankedInOrder | meta_review/data.py:482-511 | the ranked table has equal ranks exactly for equal scores and smaller ranks for higher scores, pairwise over the whole table |
| Ranking.RanksGapless | meta_review/data.py:482-485 | dense ranking leaves no gap: below any rank held, every smaller positive rank is held by someone |
| Ranking.AssignRanks | meta_review/data.py:479-511 | the loop over participants sorted by score agrees with the dense rank of each score: it starts at 1, keeps the rank on a tie and adds one where the score drops |
| Ranking.SortedTableAgrees | meta_review/data.py:479 | a sorted listing of the table has the same score set, so the loop and the closed form rank alike |
| Weights.MaxScore | meta_review/data.py:543-547 | the divisor is at least 1.0 and every score, and is 1.0 or some participant's score |
| Weights.Weight | meta_review/data.py:550-556 | a negative score weighs 0; a score between 0 and the maximum weighs between 0.1 and 1; the weight is 1 iff the score is the maximum |
| Weights.WeightMonotone | meta_review/data.py:550-556 | a higher score never earns a smaller weight |
| Weights.WeightExample | meta_review/data.py:525-536 | scores 2, 0.8 and 10 weigh 0.28, 0.172 and 1.0 |
| Weights.UpdateWeightFactors | meta_review/data.py:516-556 | only weights change; each becomes `Weight` of the participant's score against the table's largest score (at least 1.0); so each is 0 or in [0.1, 1], 0 iff the score is negative, and 1 iff the score equals the divisor |
| Weights.MaxFromScores | meta_review/data.py:543-547 | the divisor depends only on the scores, so passes that keep scores keep it |
| Weights.TopWeightExists | meta_review/data.py:543-556 | someone ends with weight 1.0 iff some score reached 1.0 |
| Activity.BumpAll | meta_review/data.py:323-343 | the checkpoint never moves back, ends at least every time visited, and is the old checkpoint or one of those times; it is absent only with no checkpoint and no times |
| Activity.Touch | meta_review/data.py:318-343 | only the checkpoint changes; it is the latest of the old checkpoint and every time the participant wrote or edited a comment, or gave or received a reaction |
| Activity.UpdateTime | meta_review/data.py:301-348 | every participant is touched, the table's keys and order stay |
| Activity.BoundaryRecounted | meta_review/data.py:389-433 | after the pass, a reaction the participant gave or received is counted by the next score update iff it is exactly as new as the checkpoint, so the newest reactions are counted again |
| Pipeline.NormaliseIndexed | meta_review/data.py:44-91 | the corrected normaliser yields dictionaries keyed as the loaders expect, and every login and comment id they refer to is present |
| Pipeline.NewCommentsPass | meta_review/data.py:230-252 | a comment created from the feed has no stored reaction, so it never needs punishing and always gets past the comment loop |
| Pipeline.CommentsChecked | meta_review/data.py:241-252 | the comment stage fails iff some stored comment does not get past the loop, and then with the error of the first such comment in store order |
| Pipeline.Load | meta_review/data.py:97-102 | with a covered feed, loading succeeds iff every stored comment is in the feed and none is to be punished without an author; a failure carries the error of the first stored comment that does not pass; a stored comment missing from the feed always aborts; on success the tables hold the union of the stored and feed keys, and the store's foreign keys hold. The contents are fixed too. Each participant is its stored row under the feed's name, a fresh row for a login only the feed knows, or the stored row for one the feed omits. Each is then lowered in score, and raised in punishment, by 0.5 per offending comment; counters and checkpoints are unchanged. Each comment is its stored or blank row refreshed from the feed. Each feed reaction is attached from the feed, and every other reaction is as stored |
| Pipeline.LoadedContents | meta_review/data.py:164-299 | the participants, comments and reactions left by the three loading stages are exactly `LoadedAs`: the per-login, per-comment and per-reaction outcomes of the participant, comment and reaction stages, with the penalties of data.py:137-152 |
| Pipeline.PunishedAt | meta_review/data.py:147-152 | after punishment, a login finds its participant with score lowered and punishment raised by 0.5 per offending comment of that login, and nothing else changed |
| Pipeline.Update | meta_review/data.py:111-118 | per participant: the counters grow and the score moves by the gains with the old weights and checkpoints; the rank is the dense rank of the final score, in 1..n, with no gap; the trend is the old rank minus the new one when there was one, else unchanged; each weight is `Weight` of the final score against the final largest score; the checkpoint is absent iff it was absent and the participant did nothing, never moves back, is at least every activity time, and is the old checkpoint or one of those times; the foreign keys still hold |
| Pipeline.UpdatedRanks | meta_review/data.py:113-118 | the weight and time passes keep the scores and ranks of the ranking pass, hence its rank order and its largest score |
| Pipeline.Run | meta_review/data.py:93-127 | a stored comment missing from the feed aborts the run with nothing saved; a run aborts only on a missing feed comment, an authorless late edit or a counted reaction without a giver; the run aborts with nothing saved iff some stored comment does not get past the comment loop, and then with the first such comment's error; only a counted reaction without a giver aborts after the dump at data.py:104-109, and then the saved store is exactly the loaded one; once the comments pass, the run yields exactly `Update` of the loaded store when every counted reaction has a giver, and otherwise aborts with `GiverFailure`'s error and that store; a successful run holds the feed's and stored participants, the feed's comments and all reactions, with ranks in score order, each weight scaled by the largest score, and no checkpoint moved back |
| Pipeline.RunNormalised | meta_review/data.py:97-127 | the same outcomes, with the same success and abort conditions, for a feed already normalised and indexed |
| Pipeline.UnregisteredReactorCrashes | meta_review/data.py:241-290 | for any well-formed store, a feed reaction by a non-empty login that is neither registered nor stored makes loading fail; once the comment stage passes, the failure is an unknown participant whose login is in neither table |
| Pipeline.UnregisteredReactorCrashesEmpty | meta_review/data.py:285-287 | into an empty store, such a reaction makes loading abort on an unknown participant not registered by the feed |
| Pipeline.AsWrittenLoadCrashes | meta_review/data.py:85-91 | with the guard as written, the feed with a deleted author and reactor "bob" aborts loading on "bob" |

## Left out

- The HTTP fetch and JSON decoding of the feed (data.py:598-620) are not modelled. They are I/O; the feed is the `issues` parameter of `Pipeline.Run`.
- `parse_time` (data.py:14-23) is not modelled. Timestamps are integers.
  - A missing `createdAt` would make the source's comparisons raise. It is not modelled.
  - A missing `lastEditedAt` is `None`.
- The Django ORM and the dump stages (data.py:558-595, 476-477) are not modelled. The store is one consistent snapshot: what a stage writes, the next stage reads.
- ORM object identity is not modelled. The updates are applied to the tables instead.
  - The comment tallies at data.py:407-418 are made on `reaction.review` objects fetched per reaction.
  - When the feed's author login is empty (data.py:245-246), the author punished at data.py:137-151 is `c.author`, an object of its own. A named author is the participant loaded from the table.
- The comment table's order stands in for the iteration order of `Comment.objects.all()` at data.py:239. That query has no `order_by`, so the database decides the order. Whether loading fails does not depend on the order. Only which failing comment the error names does (`Loader.CommentFailure`, `Pipeline.CommentsChecked`, `Pipeline.Load`).
- Logging, `print` and the counts that only feed log messages are left out: they have no effect on the data.
- Floating point is not modelled. Scores and weights are exact reals. `round` appears only in a docstring.
- Ranking.AssignRanks takes its input already sorted (`Descending`) instead of `order_by('-score', '-pos_in')`.
  - The `-pos_in` tie-break only orders participants with equal scores, and those share a rank.
  - `last_score = -inf` is `0.0` in the model, because `rank == 0` decides the first step either way.
- The `if participant.trend:` test at data.py:489 is left out. It only chooses a log message.
- Pipeline.Run: the database writes the loaders make before an abort are not modelled. These are the `get_or_create` of participants (data.py:165), the `bulk_create` of new comments (data.py:236) and the `get_or_create` of reactions (data.py:271). An abort in loading is reported with `saved` empty.
- Loader.LoadComments: for a comment whose feed author has no login, the source punishes `c.author`, an object fetched through the comment and never saved (data.py:245-251). The model applies that penalty to the author's row in the participant table, as it does for a named author.
- Pipeline.Run uses the corrected reactor guard (see Findings). `Normalizer.NormaliseAsWritten` keeps the source's guard for the counterexample.
- A stage's preconditions stand in for the aborts that `Pipeline.Run` checks first:
  - Scoring.UpdateScores requires `GiversKnown`, which `Scoring.GiverFailure` checks;
  - Pipeline.Load requires an indexed feed, which `Pipeline.NormaliseIndexed` proves.
- The defaults of a newly created participant come from models.py, which is not part of this model. They are zero counters, no rank, trend or checkpoint, and the weight factor given by the parameter `initialWeight`.
- Reactions in the store that the feed no longer carries are kept and still scanned, as the source's relation queries do.
- `self.date` is never read by the modelled stages.
- fetch_deployed_data.py, outside_committers.py and run_meta_review_system.py are not part of this model.

## Findings

| source | as written | input that shows it | evidently intended | confidence | as-written member | corrected member |
|---|---|---|---|---|---|---|
| meta_review/data.py:89-91 | the reactor loop tests `author['login']`, the comment author's login, before registering each reactor `user` | one pull-request comment by a deleted account (empty login) with a THUMBS_UP by "bob": "bob" is not registered, and loading the reaction raises `KeyError` at data.py:287. The other way round, a comment by "alice" with a reaction by a deleted account registers the empty login, and `get_or_create` at data.py:165 makes a participant row for it | test the reactor's own `user['login']`, as the comment "skip if user not exist" says | high (not executed) | Normalizer.ReactorGuardCounterexample, Normalizer.DeletedReactorRegistered | Normalizer.Participants, Normalizer.DeletedReactorSkipped |
| meta_review/data.py:405-418 | the comment tallies are written to `reaction.review`, which is fetched per reaction and never saved, so no comment's counters persist | a stored comment with one THUMBS_UP counted for its author: after the run its `pos` is unchanged | raise the comment's `pos`, `neg`, weighted counters and score by the counted reactions | medium (not executed) | Scoring.CommentTallyLost | Scoring.UpdateScores |

The same input, run through loading, is `Pipeline.AsWrittenLoadCrashes`.
The corrected normaliser is `Normalizer.Normalise`; `Normalizer.ReactionLoginsRegistered` shows that it registers every reactor the reactions name.
