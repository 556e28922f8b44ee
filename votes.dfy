/**
 * `src-tauri/src/repository/vote_repository.rs`: one vote per user and
 * target, the reputation a vote earns the target's owner, and the counts
 * derived from the votes table. The `vote_count` fold that the answer and
 * question repositories compute over the same table lives here too.
 */
module VoteRepository {
  import opened Wrappers
  import opened Seqs
  import opened Store
  import opened AppErrors

  /** The target types whose owners gain or lose reputation from votes. */
  predicate RewardsOwner(targetType: string) {
    targetType == "question" || targetType == "answer"
  }

  /**
   * `calculate_reputation_change`: the change to the owner's reputation when
   * a vote goes from `oldVote` ("" for no vote) to `newVote`.
   */
  function ReputationChange(oldVote: string, newVote: string, targetType: string): (d: int)
    ensures d > 0 <==> RewardsOwner(targetType) && newVote == "up" && (oldVote == "" || oldVote == "down")
    ensures d < 0 <==> RewardsOwner(targetType) && newVote == "down" && (oldVote == "" || oldVote == "up")
  {
    if targetType == "question" then
      if oldVote == "" && newVote == "up" then 5
      else if oldVote == "" && newVote == "down" then -2
      else if oldVote == "up" && newVote == "down" then -7
      else if oldVote == "down" && newVote == "up" then 7
      else 0
    else if targetType == "answer" then
      if oldVote == "" && newVote == "up" then 10
      else if oldVote == "" && newVote == "down" then -2
      else if oldVote == "up" && newVote == "down" then -12
      else if oldVote == "down" && newVote == "up" then 12
      else 0
    else 0
  }

  /**
   * Switching a vote undoes the reward of the old vote and grants the reward
   * of the new one: the switch delta is the difference of the fresh deltas.
   */
  lemma SwitchIsDifference(targetType: string)
    ensures ReputationChange("up", "down", targetType)
         == ReputationChange("", "down", targetType) - ReputationChange("", "up", targetType)
    ensures ReputationChange("down", "up", targetType)
         == ReputationChange("", "up", targetType) - ReputationChange("", "down", targetType)
  {
  }

  /** An up-vote on an answer is worth twice one on a question; a down-vote costs both the same. */
  lemma AnswerUpVotesWeighDouble()
    ensures ReputationChange("", "up", "answer") == 2 * ReputationChange("", "up", "question")
    ensures ReputationChange("", "down", "answer") == ReputationChange("", "down", "question") < 0
  {
  }

  /** The user who owns the voted-on question or answer, if the target row exists. */
  function TargetOwner(t: Tables, targetId: int, targetType: string): (r: Option<int>)
    ensures r.Some? ==> RewardsOwner(targetType)
    ensures targetType == "question" ==>
      (r.Some? <==> exists i | 0 <= i < |t.questions| :: t.questions[i].id == targetId)
    ensures targetType == "answer" ==>
      (r.Some? <==> exists i | 0 <= i < |t.answers| :: t.answers[i].id == targetId)
  {
    if targetType == "question" then
      match FindQuestion(t.questions, targetId)
      case None => None
      case Some(k) => Some(t.questions[k].userId)
    else if targetType == "answer" then
      match FindAnswer(t.answers, targetId)
      case None => None
      case Some(k) => Some(t.answers[k].userId)
    else None
  }

  /** The error `update_content_owner_reputation` raises for a missing owner row. */
  const OwnerMissing: AppError := FromDbErr(RecordNotFound("User not found"))

  /**
   * `update_content_owner_reputation`: the users table after adding `delta`
   * to the reputation of the target's owner.
   */
  function OwnerReputation(t: Tables, targetId: int, targetType: string, delta: int): (r: Result<seq<User>, AppError>)
    ensures TargetOwner(t, targetId, targetType).None? ==> r == Ok(t.users)
    ensures TargetOwner(t, targetId, targetType).Some? ==>
      (r.Err? <==> forall i | 0 <= i < |t.users| :: t.users[i].id != TargetOwner(t, targetId, targetType).value)
    ensures r.Err? ==> r.error == OwnerMissing
    ensures r.Ok? ==> |r.value| == |t.users|
  {
    match TargetOwner(t, targetId, targetType)
    case None => Ok(t.users)
    case Some(owner) =>
      match FindUser(t.users, owner)
      case None => Err(OwnerMissing)
      case Some(k) => Ok(AddReputation(t.users, k, delta))
  }

  /**
   * The owner's reputation changes by exactly `delta` and no other user
   * changes; the users table stays valid.
   */
  lemma OwnerReputationEffect(t: Tables, targetId: int, targetType: string, delta: int)
    requires UsersValid(t)
    ensures var r := OwnerReputation(t, targetId, targetType, delta);
      r.Ok? ==>
        && UsersValid(t.(users := r.value))
        && forall i | 0 <= i < |t.users| ::
             r.value[i] == if Some(t.users[i].id) == TargetOwner(t, targetId, targetType)
                           then t.users[i].(reputation := t.users[i].reputation + delta)
                           else t.users[i]
  {
    var owner := TargetOwner(t, targetId, targetType);
    if owner.Some? {
      var k := FindUser(t.users, owner.value);
      if k.Some? {
        AddReputationKeepsUsers(t, k.value, delta);
        forall i | 0 <= i < |t.users| && i != k.value
          ensures t.users[i].id != owner.value
        {
          assert UserId(t.users[i]) != UserId(t.users[k.value]);
        }
      }
    }
  }

  /** The (user, target) key a vote is looked up by. */
  function KeyOf(userId: int, targetId: int, targetType: string): (int, int, string) {
    (userId, targetId, targetType)
  }

  /**
   * `create_vote` as a transition of the tables, with its response. An
   * existing vote of the same type is returned as it is; one of another
   * type is rewritten; otherwise a vote is inserted. A failed owner update
   * rolls back the whole transaction.
   */
  function CreateVoteSpec(t: Tables, userId: int, targetId: int, targetType: string, voteType: string, now: int)
    : (out: (Tables, Result<Vote, AppError>))
    ensures out.0 == t.(votes := out.0.votes, users := out.0.users, nextVoteId := out.0.nextVoteId)
    ensures out.1.Err? ==> out.0 == t && out.1.error == OwnerMissing
    ensures out.1.Ok? ==> VoteKey(out.1.value) == KeyOf(userId, targetId, targetType) && out.1.value.voteType == voteType
    ensures out.1.Ok? ==> out.1.value in out.0.votes
  {
    match FindKey(t.votes, VoteKey, KeyOf(userId, targetId, targetType))
    case Some(k) =>
      var existing := t.votes[k];
      if existing.voteType == voteType then (t, Ok(existing))
      else
        var updated := existing.(voteType := voteType);
        var delta := ReputationChange(existing.voteType, voteType, targetType);
        (match OwnerReputation(t, targetId, targetType, delta)
         case Err(e) => (t, Err(e))
         case Ok(users) =>
           var votes := t.votes[k := updated];
           assert votes[k] == updated;
           (t.(votes := votes, users := users), Ok(updated)))
    case None =>
      var vote := Vote(t.nextVoteId, userId, targetId, targetType, voteType, now);
      var delta := ReputationChange("", voteType, targetType);
      match OwnerReputation(t, targetId, targetType, delta)
      case Err(e) => (t, Err(e))
      case Ok(users) => (t.(votes := t.votes + [vote], users := users, nextVoteId := t.nextVoteId + 1), Ok(vote))
  }

  /** `create_vote` keeps every constraint, in particular one vote per user and target. */
  lemma CreateVoteKeepsValid(t: Tables, userId: int, targetId: int, targetType: string, voteType: string, now: int)
    requires ValidTables(t)
    ensures ValidTables(CreateVoteSpec(t, userId, targetId, targetType, voteType, now).0)
  {
    var out := CreateVoteSpec(t, userId, targetId, targetType, voteType, now);
    if out.1.Ok? && out.0 != t {
      var k := FindKey(t.votes, VoteKey, KeyOf(userId, targetId, targetType));
      var delta := if k.Some? then ReputationChange(t.votes[k.value].voteType, voteType, targetType)
                   else ReputationChange("", voteType, targetType);
      OwnerReputationEffect(t, targetId, targetType, delta);
      if k.Some? {
        RewriteKeepsTable(t.votes, out.0.votes, VoteId, t.nextVoteId);
        SameKeysKeepUnique(t.votes, out.0.votes, VoteKey);
      } else {
        InsertKeepsTable(t.votes, VoteId, t.nextVoteId, out.1.value);
        AppendKeepsUnique(t.votes, VoteKey, out.1.value);
      }
    }
  }

  /** `create_vote`: one atomic step on the database. */
  method CreateVote(db: Database, userId: int, targetId: int, targetType: string, voteType: string, now: int)
    returns (r: Result<Vote, AppError>)
    requires db.Valid()
    modifies db
    ensures db.Valid()
    ensures db.T() == CreateVoteSpec(old(db.T()), userId, targetId, targetType, voteType, now).0
    ensures r == CreateVoteSpec(old(db.T()), userId, targetId, targetType, voteType, now).1
  {
    CreateVoteKeepsValid(db.T(), userId, targetId, targetType, voteType, now);
    ghost var t0 := db.T();
    ghost var spec := CreateVoteSpec(t0, userId, targetId, targetType, voteType, now);
    var votes, nextVoteId := db.votes, db.nextVoteId;
    var vote: Vote;
    var delta: int;
    var existing := FindKey(db.votes, VoteKey, KeyOf(userId, targetId, targetType));
    if existing.Some? {
      var k := existing.value;
      if db.votes[k].voteType == voteType {
        return Ok(db.votes[k]);
      }
      vote := db.votes[k].(voteType := voteType);
      delta := ReputationChange(db.votes[k].voteType, voteType, targetType);
      votes := votes[k := vote];
    } else {
      vote := Vote(db.nextVoteId, userId, targetId, targetType, voteType, now);
      delta := ReputationChange("", voteType, targetType);
      votes := votes + [vote];
      nextVoteId := nextVoteId + 1;
    }
    var users := OwnerReputation(db.T(), targetId, targetType, delta);
    if users.Err? {
      return Err(users.error);
    }
    db.WriteVotes(votes, nextVoteId);
    db.WriteUsers(users.value, db.nextUserId);
    r := Ok(vote);
  }

  /** Submitting the vote a user already has changes nothing and returns that vote. */
  lemma RepeatedVoteChangesNothing(t: Tables, userId: int, targetId: int, targetType: string, voteType: string, now: int, k: nat)
    requires VotesValid(t) && k < |t.votes|
    requires VoteKey(t.votes[k]) == KeyOf(userId, targetId, targetType) && t.votes[k].voteType == voteType
    ensures CreateVoteSpec(t, userId, targetId, targetType, voteType, now) == (t, Ok(t.votes[k]))
  {
    FindKeyUnique(t.votes, VoteKey, k);
  }

  /**
   * Switching the type of an existing vote rewrites only its `vote_type`:
   * the row keeps its id, user, target and creation time, stays where it
   * is, and no other vote changes.
   */
  lemma SwitchRewritesOnlyType(t: Tables, userId: int, targetId: int, targetType: string, voteType: string, now: int, k: nat)
    requires VotesValid(t) && k < |t.votes|
    requires VoteKey(t.votes[k]) == KeyOf(userId, targetId, targetType) && t.votes[k].voteType != voteType
    ensures var out := CreateVoteSpec(t, userId, targetId, targetType, voteType, now);
      out.1.Ok? ==>
        && |out.0.votes| == |t.votes|
        && out.0.votes[k] == t.votes[k].(voteType := voteType)
        && (forall i | 0 <= i < |t.votes| && i != k :: out.0.votes[i] == t.votes[i])
        && out.0.users == OwnerReputation(t, targetId, targetType,
             ReputationChange(t.votes[k].voteType, voteType, targetType)).value
  {
    FindKeyUnique(t.votes, VoteKey, k);
  }

  /** A first vote is a new row with the next id, and the owner is credited the fresh delta. */
  lemma FirstVoteInserts(t: Tables, userId: int, targetId: int, targetType: string, voteType: string, now: int)
    requires forall i | 0 <= i < |t.votes| :: VoteKey(t.votes[i]) != KeyOf(userId, targetId, targetType)
    ensures var out := CreateVoteSpec(t, userId, targetId, targetType, voteType, now);
      out.1.Ok? ==>
        && out.1.value == Vote(t.nextVoteId, userId, targetId, targetType, voteType, now)
        && out.0.votes == t.votes + [out.1.value]
        && out.0.users == OwnerReputation(t, targetId, targetType, ReputationChange("", voteType, targetType)).value
  {
  }

  /**
   * Submitting the same vote twice leaves the tables as one submission does:
   * the second call finds the vote the first one stored.
   */
  lemma {:induction false} CreateVoteIdempotent(t: Tables, userId: int, targetId: int, targetType: string, voteType: string, now: int, later: int)
    requires ValidTables(t)
    ensures var first := CreateVoteSpec(t, userId, targetId, targetType, voteType, now);
      first.1.Ok? ==>
        CreateVoteSpec(first.0, userId, targetId, targetType, voteType, later) == (first.0, first.1)
  {
    var first := CreateVoteSpec(t, userId, targetId, targetType, voteType, now);
    if first.1.Ok? {
      var votes := first.0.votes;
      var v := first.1.value;
      var k :| 0 <= k < |votes| && votes[k] == v;
      CreateVoteKeepsValid(t, userId, targetId, targetType, voteType, now);
      RepeatedVoteChangesNothing(first.0, userId, targetId, targetType, voteType, later, k);
    }
  }

  /** A vote on the given target with the given type. */
  function VotedOn(targetId: int, targetType: string, voteType: string): Vote -> bool {
    (v: Vote) => v.targetId == targetId && v.targetType == targetType && v.voteType == voteType
  }

  /** A vote on the given target whose type is anything but "up". */
  function NotUpOn(targetId: int, targetType: string): Vote -> bool {
    (v: Vote) => v.targetId == targetId && v.targetType == targetType && v.voteType != "up"
  }

  datatype VoteCount = VoteCount(upvotes: int, downvotes: int, total: int)

  /** `get_vote_count`: up- and down-votes on a target, and their difference. */
  function GetVoteCount(votes: seq<Vote>, targetId: int, targetType: string): (c: VoteCount)
    ensures c.upvotes == |Matching(votes, VotedOn(targetId, targetType, "up"))|
    ensures c.downvotes == |Matching(votes, VotedOn(targetId, targetType, "down"))|
    ensures c.total == c.upvotes - c.downvotes
  {
    var up := Count(votes, VotedOn(targetId, targetType, "up"));
    var down := Count(votes, VotedOn(targetId, targetType, "down"));
    CountIsCardinality(votes, VotedOn(targetId, targetType, "up"));
    CountIsCardinality(votes, VotedOn(targetId, targetType, "down"));
    VoteCount(up, down, up - down)
  }

  /** `get_user_vote`: the type of the user's vote on the target, if any. */
  function GetUserVote(votes: seq<Vote>, userId: int, targetId: int, targetType: string): (r: Option<string>)
    ensures r.None? <==> forall i | 0 <= i < |votes| :: VoteKey(votes[i]) != KeyOf(userId, targetId, targetType)
    ensures r.Some? ==> exists i | 0 <= i < |votes| ::
      VoteKey(votes[i]) == KeyOf(userId, targetId, targetType) && votes[i].voteType == r.value
  {
    match FindKey(votes, VoteKey, KeyOf(userId, targetId, targetType))
    case None => None
    case Some(k) => Some(votes[k].voteType)
  }

  /** Under the one-vote-per-key invariant the vote found is the user's only vote on the target. */
  lemma GetUserVoteIsTheVote(votes: seq<Vote>, k: nat)
    requires KeysUnique(votes, VoteKey) && k < |votes|
    ensures GetUserVote(votes, votes[k].userId, votes[k].targetId, votes[k].targetType) == Some(votes[k].voteType)
  {
    FindKeyUnique(votes, VoteKey, k);
  }

  /**
   * The `vote_count` fold of the answer and question responses: +1 for each
   * "up" vote on the target and -1 for each vote of any other type.
   */
  function VoteScore(votes: seq<Vote>, targetId: int, targetType: string): (s: int)
    ensures s == Count(votes, VotedOn(targetId, targetType, "up")) - Count(votes, NotUpOn(targetId, targetType))
    decreases |votes|
  {
    if votes == [] then 0
    else
      var v := votes[|votes| - 1];
      VoteScore(votes[..|votes| - 1], targetId, targetType)
        + (if v.targetId == targetId && v.targetType == targetType then (if v.voteType == "up" then 1 else -1) else 0)
  }

  /** Every vote on the target is "up" or "down". */
  predicate UpOrDownOnly(votes: seq<Vote>, targetId: int, targetType: string) {
    forall i | 0 <= i < |votes| && votes[i].targetId == targetId && votes[i].targetType == targetType ::
      votes[i].voteType == "up" || votes[i].voteType == "down"
  }

  lemma {:induction false} NotUpIsDown(votes: seq<Vote>, targetId: int, targetType: string)
    requires UpOrDownOnly(votes, targetId, targetType)
    ensures Count(votes, NotUpOn(targetId, targetType)) == Count(votes, VotedOn(targetId, targetType, "down"))
    decreases |votes|
  {
    if votes != [] {
      NotUpIsDown(votes[..|votes| - 1], targetId, targetType);
    }
  }

  /**
   * When votes are only ever "up" or "down", the fold the responses show
   * agrees with the total `get_vote_count` reports.
   */
  lemma ScoreAgreesWithCount(votes: seq<Vote>, targetId: int, targetType: string)
    requires UpOrDownOnly(votes, targetId, targetType)
    ensures VoteScore(votes, targetId, targetType) == GetVoteCount(votes, targetId, targetType).total
  {
    NotUpIsDown(votes, targetId, targetType);
    CountIsCardinality(votes, VotedOn(targetId, targetType, "up"));
    CountIsCardinality(votes, VotedOn(targetId, targetType, "down"));
  }
}
