/**
 * `src-tauri/src/repository/answer_repository.rs`: creating answers, reading
 * them back as responses with their author and vote score, listing a
 * question's answers newest first, and accepting an answer.
 */
module AnswerRepository {
  import opened Wrappers
  import opened Seqs
  import opened Store
  import opened AppErrors
  import opened VoteRepository

  /** What the answer commands return for one answer. */
  datatype AnswerResponse = AnswerResponse(
    id: int, questionId: int, content: string, userId: int, createdAt: int,
    updatedAt: int, isAccepted: bool, author: UserBrief, voteCount: int)

  const AuthorMissing: AppError := NotFound("User not found")

  /**
   * `transform_to_response`: the answer with its author's summary and the
   * vote score of the answer; an author row that is missing is an error.
   */
  function TransformAnswer(t: Tables, a: Answer): (r: Result<AnswerResponse, AppError>)
    ensures r.Err? <==> forall i | 0 <= i < |t.users| :: t.users[i].id != a.userId
    ensures r.Err? ==> r.error == AuthorMissing
  {
    match FindUser(t.users, a.userId)
    case None => Err(AuthorMissing)
    case Some(k) =>
      Ok(AnswerResponse(a.id, a.questionId, a.content, a.userId, a.createdAt, a.updatedAt,
                        a.isAccepted != 0, Brief(t.users[k]), VoteScore(t.votes, a.id, "answer")))
  }

  /**
   * A response copies the row, reports `is_accepted` as "not 0", embeds the
   * summary of the user with the author's id, and counts +1 for each "up"
   * vote on the answer and -1 for each other vote on it.
   */
  lemma TransformAnswerFields(t: Tables, a: Answer, k: nat)
    requires UsersValid(t) && k < |t.users| && t.users[k].id == a.userId
    ensures var r := TransformAnswer(t, a);
      && r.Ok?
      && (r.value.id, r.value.questionId, r.value.userId, r.value.content) == (a.id, a.questionId, a.userId, a.content)
      && (r.value.createdAt, r.value.updatedAt) == (a.createdAt, a.updatedAt)
      && (r.value.isAccepted <==> a.isAccepted != 0)
      && r.value.author == Brief(t.users[k])
      && r.value.voteCount == Count(t.votes, VotedOn(a.id, "answer", "up")) - Count(t.votes, NotUpOn(a.id, "answer"))
  {
    FindKeyUnique(t.users, UserId, k);
  }

  const AnswerMissing: AppError := NotFound("Answer not found")

  /** `get_answer_by_id`: the response for the answer with that id. */
  function GetAnswerById(t: Tables, id: int): (r: Result<AnswerResponse, AppError>)
    requires TableValid(t.answers, AnswerId, t.nextAnswerId)
    ensures (forall i | 0 <= i < |t.answers| :: t.answers[i].id != id) ==> r == Err(AnswerMissing)
    ensures r.Ok? ==> r.value.id == id
    ensures forall i | 0 <= i < |t.answers| && t.answers[i].id == id :: r == TransformAnswer(t, t.answers[i])
  {
    forall i | 0 <= i < |t.answers| && t.answers[i].id == id
      ensures FindAnswer(t.answers, id) == Some(i)
    {
      FindKeyUnique(t.answers, AnswerId, i);
    }
    match FindAnswer(t.answers, id)
    case None => Err(AnswerMissing)
    case Some(k) => TransformAnswer(t, t.answers[k])
  }

  /** The row `create_answer` inserts: not accepted, created and updated now. */
  function NewAnswer(t: Tables, questionId: int, userId: int, content: string, now: int): Answer {
    Answer(t.nextAnswerId, questionId, userId, content, now, now, 0)
  }

  /**
   * `create_answer`: inserts the row, then reads it back. The insert is not
   * in a transaction with the read, so an author that does not exist makes
   * the call fail while the new row stays.
   */
  function CreateAnswerSpec(t: Tables, questionId: int, userId: int, content: string, now: int)
    : (out: (Tables, Result<AnswerResponse, AppError>))
    requires TableValid(t.answers, AnswerId, t.nextAnswerId)
    ensures out.0 == t.(answers := t.answers + [NewAnswer(t, questionId, userId, content, now)],
                        nextAnswerId := t.nextAnswerId + 1)
    ensures out.1.Err? <==> forall i | 0 <= i < |t.users| :: t.users[i].id != userId
    ensures out.1.Err? ==> out.1.error == AuthorMissing
    ensures out.1.Ok? ==>
      && out.1.value.id == t.nextAnswerId
      && (out.1.value.questionId, out.1.value.userId, out.1.value.content) == (questionId, userId, content)
      && !out.1.value.isAccepted
      && out.1.value.createdAt == out.1.value.updatedAt == now
  {
    var a := NewAnswer(t, questionId, userId, content, now);
    var t' := t.(answers := t.answers + [a], nextAnswerId := t.nextAnswerId + 1);
    InsertKeepsTable(t.answers, AnswerId, t.nextAnswerId, a);
    assert t'.answers[|t.answers|] == a;
    (t', GetAnswerById(t', a.id))
  }

  /** `create_answer` keeps every constraint of the schema. */
  lemma CreateAnswerKeepsValid(t: Tables, questionId: int, userId: int, content: string, now: int)
    requires ValidTables(t)
    ensures ValidTables(CreateAnswerSpec(t, questionId, userId, content, now).0)
  {
    InsertKeepsTable(t.answers, AnswerId, t.nextAnswerId, NewAnswer(t, questionId, userId, content, now));
  }

  /** `create_answer`: the insert, then the read back through `get_answer_by_id`. */
  method CreateAnswer(db: Database, questionId: int, userId: int, content: string, now: int)
    returns (r: Result<AnswerResponse, AppError>)
    requires db.Valid()
    modifies db
    ensures db.Valid()
    ensures db.T() == CreateAnswerSpec(old(db.T()), questionId, userId, content, now).0
    ensures r == CreateAnswerSpec(old(db.T()), questionId, userId, content, now).1
  {
    CreateAnswerKeepsValid(db.T(), questionId, userId, content, now);
    var answer := NewAnswer(db.T(), questionId, userId, content, now);
    db.WriteAnswers(db.answers + [answer], db.nextAnswerId + 1);
    r := GetAnswerById(db.T(), answer.id);
  }

  /** `ORDER BY created_at DESC`. */
  function NewerFirst(): (Answer, Answer) -> bool {
    (a: Answer, b: Answer) => a.createdAt >= b.createdAt
  }

  lemma NewerFirstOrders()
    ensures Total(NewerFirst()) && Transitive(NewerFirst())
  {
  }

  /** An answer to the given question. */
  function OfQuestion(questionId: int): Answer -> bool {
    (a: Answer) => a.questionId == questionId
  }

  /**
   * The rows the query of `get_answers_by_question_id` returns: exactly the
   * question's answers, each as often as it is stored, newest first.
   */
  function AnswersOf(answers: seq<Answer>, questionId: int): (r: seq<Answer>)
    ensures forall a :: multiset(r)[a] == if a.questionId == questionId then multiset(answers)[a] else 0
    ensures forall i, j | 0 <= i < j < |r| :: r[i].createdAt >= r[j].createdAt
  {
    NewerFirstOrders();
    var s := SortBy(Filter(answers, OfQuestion(questionId)), NewerFirst());
    assert SortedBy(s, NewerFirst());
    s
  }

  /** `transform_to_response` as a function of the row. */
  function Responder(t: Tables): Answer -> Result<AnswerResponse, AppError> {
    (a: Answer) => TransformAnswer(t, a)
  }

  /**
   * `get_answers_by_question_id`: the query's rows become responses one by
   * one, and the loop stops at the first row whose author is missing.
   */
  method GetAnswersByQuestionId(db: Database, questionId: int) returns (r: Result<seq<AnswerResponse>, AppError>)
    ensures r == MapResult(AnswersOf(db.answers, questionId), Responder(db.T()))
    ensures r.Err? ==> r.error == AuthorMissing
  {
    var rows := AnswersOf(db.answers, questionId);
    r := CollectResponses(db.T(), rows);
  }

  /** The loop of `get_answers_by_question_id` over the rows of its query. */
  method CollectResponses(t: Tables, rows: seq<Answer>) returns (r: Result<seq<AnswerResponse>, AppError>)
    ensures r == MapResult(rows, Responder(t))
  {
    var responses: seq<AnswerResponse> := [];
    var i := 0;
    while i < |rows|
      invariant 0 <= i <= |rows|
      invariant MapResult(rows[..i], Responder(t)) == Ok(responses)
    {
      var response := TransformAnswer(t, rows[i]);
      if response.Err? {
        MapResultStops(rows, Responder(t), i, |rows|);
        assert rows[..|rows|] == rows;
        return Err(response.error);
      }
      assert rows[..i + 1][..i] == rows[..i];
      responses := responses + [response.value];
      i := i + 1;
    }
    assert rows[..i] == rows;
    r := Ok(responses);
  }

  /** `update_many`: every accepted answer of the question is no longer accepted. */
  function ClearAccepted(questionId: int): Answer -> Answer {
    (a: Answer) => if a.questionId == questionId && a.isAccepted == 1 then a.(isAccepted := 0) else a
  }

  /** The single update: the answer with that id is accepted. */
  function SetAccepted(answerId: int): Answer -> Answer {
    (a: Answer) => if a.id == answerId then a.(isAccepted := 1) else a
  }

  /** The question with that id is answered. */
  function MarkAnswered(questionId: int): Question -> Question {
    (q: Question) => if q.id == questionId then q.(isAnswered := 1) else q
  }

  const QuestionMissing: AppError := NotFound("Question not found")
  const AnswerAuthorMissing: AppError := NotFound("Answer author not found")

  /** The reputation an answer's author earns when it is accepted. */
  const AcceptReward := 15

  /**
   * `accept_answer` as one transaction: the answer and its question must
   * exist; every accepted answer of the question is cleared, the answer is
   * accepted, the question is marked answered, and the author (when not the
   * question's owner) earns the reward. Any error rolls everything back.
   */
  function AcceptAnswerSpec(t: Tables, answerId: int): (out: (Tables, Result<(), AppError>))
    ensures out.0 == t.(answers := out.0.answers, questions := out.0.questions, users := out.0.users)
    ensures out.1.Err? ==> out.0 == t
    ensures out.1 == Err(AnswerMissing) <==> FindAnswer(t.answers, answerId).None?
    ensures FindAnswer(t.answers, answerId).Some? ==>
      var a := t.answers[FindAnswer(t.answers, answerId).value];
      && (out.1 == Err(QuestionMissing) <==> FindQuestion(t.questions, a.questionId).None?)
      && (out.1 == Err(AnswerAuthorMissing) <==>
            && FindQuestion(t.questions, a.questionId).Some?
            && t.questions[FindQuestion(t.questions, a.questionId).value].userId != a.userId
            && FindUser(t.users, a.userId).None?)
  {
    match FindAnswer(t.answers, answerId)
    case None => (t, Err(AnswerMissing))
    case Some(k) =>
      var a := t.answers[k];
      match FindQuestion(t.questions, a.questionId)
      case None => (t, Err(QuestionMissing))
      case Some(j) =>
        var q := t.questions[j];
        var answers := Map(Map(t.answers, ClearAccepted(a.questionId)), SetAccepted(a.id));
        var questions := Map(t.questions, MarkAnswered(q.id));
        if q.userId == a.userId then
          (t.(answers := answers, questions := questions), Ok(()))
        else
          match FindUser(t.users, a.userId)
          case None => (t, Err(AnswerAuthorMissing))
          case Some(u) => (t.(answers := answers, questions := questions,
                               users := AddReputation(t.users, u, AcceptReward)), Ok(()))
  }

  /** The reputation change `accept_answer` gives a user: the reward for a non-owner author. */
  function AcceptedUser(t: Tables, a: Answer, q: Question, u: User): User {
    if u.id == a.userId && q.userId != a.userId then u.(reputation := u.reputation + AcceptReward) else u
  }

  /**
   * What a successful `accept_answer` does to the answers: the answer is the
   * only accepted answer of its question, the question's other accepted
   * answers are cleared, and answers of other questions are untouched.
   */
  lemma AcceptAnswerAnswers(t: Tables, answerId: int, k: nat)
    requires TableValid(t.answers, AnswerId, t.nextAnswerId)
    requires k < |t.answers| && t.answers[k].id == answerId
    ensures var out := AcceptAnswerSpec(t, answerId);
      var a := t.answers[k];
      out.1.Ok? ==>
        && |out.0.answers| == |t.answers|
        && out.0.answers[k] == a.(isAccepted := 1)
        && (forall i | 0 <= i < |t.answers| && out.0.answers[i].questionId == a.questionId ::
              out.0.answers[i].isAccepted == 1 <==> i == k)
        && (forall i | 0 <= i < |t.answers| && i != k ::
              out.0.answers[i] == t.answers[i] || (t.answers[i].questionId == a.questionId
                                                   && t.answers[i].isAccepted == 1
                                                   && out.0.answers[i] == t.answers[i].(isAccepted := 0)))
        && (forall i | 0 <= i < |t.answers| && t.answers[i].questionId != a.questionId :: out.0.answers[i] == t.answers[i])
  {
    FindKeyUnique(t.answers, AnswerId, k);
    forall i | 0 <= i < |t.answers| && i != k ensures t.answers[i].id != answerId {
      assert AnswerId(t.answers[i]) != AnswerId(t.answers[k]);
    }
  }

  /** A successful `accept_answer` marks the answer's question answered and changes no other question. */
  lemma AcceptAnswerQuestions(t: Tables, answerId: int, k: nat, j: nat)
    requires TableValid(t.answers, AnswerId, t.nextAnswerId) && TableValid(t.questions, QuestionId, t.nextQuestionId)
    requires k < |t.answers| && t.answers[k].id == answerId
    requires j < |t.questions| && t.questions[j].id == t.answers[k].questionId
    ensures var out := AcceptAnswerSpec(t, answerId);
      out.1.Ok? ==>
        && |out.0.questions| == |t.questions|
        && out.0.questions[j] == t.questions[j].(isAnswered := 1)
        && (forall i | 0 <= i < |t.questions| && i != j :: out.0.questions[i] == t.questions[i])
  {
    FindKeyUnique(t.answers, AnswerId, k);
    FindKeyUnique(t.questions, QuestionId, j);
    forall i | 0 <= i < |t.questions| && i != j ensures t.questions[i].id != t.questions[j].id {
      assert QuestionId(t.questions[i]) != QuestionId(t.questions[j]);
    }
  }

  /**
   * A successful `accept_answer` rewards the answer's author by exactly
   * `AcceptReward` when the author does not own the question, and changes
   * no other reputation.
   */
  lemma AcceptAnswerReputation(t: Tables, answerId: int, k: nat, j: nat)
    requires ValidTables(t)
    requires k < |t.answers| && t.answers[k].id == answerId
    requires j < |t.questions| && t.questions[j].id == t.answers[k].questionId
    ensures var out := AcceptAnswerSpec(t, answerId);
      out.1.Ok? ==>
        && |out.0.users| == |t.users|
        && forall i | 0 <= i < |t.users| :: out.0.users[i] == AcceptedUser(t, t.answers[k], t.questions[j], t.users[i])
  {
    FindKeyUnique(t.answers, AnswerId, k);
    FindKeyUnique(t.questions, QuestionId, j);
    var a, q := t.answers[k], t.questions[j];
    var u := FindUser(t.users, a.userId);
    if q.userId != a.userId && u.Some? {
      forall i | 0 <= i < |t.users| && i != u.value ensures t.users[i].id != a.userId {
        assert UserId(t.users[i]) != UserId(t.users[u.value]);
      }
    }
  }

  /** `accept_answer` keeps every constraint of the schema. */
  lemma AcceptAnswerKeepsValid(t: Tables, answerId: int)
    requires ValidTables(t)
    ensures ValidTables(AcceptAnswerSpec(t, answerId).0)
  {
    var out := AcceptAnswerSpec(t, answerId);
    if out.1.Ok? {
      var k := FindAnswer(t.answers, answerId).value;
      var a := t.answers[k];
      var j := FindQuestion(t.questions, a.questionId).value;
      RewriteKeepsTable(t.answers, out.0.answers, AnswerId, t.nextAnswerId);
      RewriteKeepsTable(t.questions, out.0.questions, QuestionId, t.nextQuestionId);
      if t.questions[j].userId != a.userId {
        AddReputationKeepsUsers(t, FindUser(t.users, a.userId).value, AcceptReward);
      }
    }
  }

  /**
   * Accepting the same answer again is not a no-op: the author, when not the
   * question's owner, earns the reward a second time.
   */
  lemma AcceptTwiceRewardsTwice(t: Tables, answerId: int, k: nat, j: nat, u: nat)
    requires ValidTables(t)
    requires k < |t.answers| && t.answers[k].id == answerId
    requires j < |t.questions| && t.questions[j].id == t.answers[k].questionId
    requires u < |t.users| && t.users[u].id == t.answers[k].userId != t.questions[j].userId
    ensures var once := AcceptAnswerSpec(t, answerId);
      var twice := AcceptAnswerSpec(once.0, answerId);
      && once.1.Ok? && twice.1.Ok?
      && twice.0.users[u].reputation == t.users[u].reputation + 2 * AcceptReward
  {
    var once := AcceptAnswerSpec(t, answerId);
    FindKeyUnique(t.answers, AnswerId, k);
    FindKeyUnique(t.questions, QuestionId, j);
    FindKeyUnique(t.users, UserId, u);
    AcceptAnswerAnswers(t, answerId, k);
    AcceptAnswerQuestions(t, answerId, k, j);
    AcceptAnswerReputation(t, answerId, k, j);
    AcceptAnswerKeepsValid(t, answerId);
    var t1 := once.0;
    FindKeyUnique(t1.answers, AnswerId, k);
    FindKeyUnique(t1.questions, QuestionId, j);
    FindKeyUnique(t1.users, UserId, u);
    AcceptAnswerReputation(t1, answerId, k, j);
  }

  /** The `update_many` of `accept_answer`: one pass over the answers table. */
  method ClearAcceptedAnswers(answers: seq<Answer>, questionId: int) returns (r: seq<Answer>)
    ensures |r| == |answers|
    ensures forall i | 0 <= i < |answers| ::
      r[i] == if answers[i].questionId == questionId && answers[i].isAccepted == 1
              then answers[i].(isAccepted := 0) else answers[i]
  {
    r := answers;
    var i := 0;
    while i < |r|
      invariant 0 <= i <= |r| == |answers|
      invariant forall m | 0 <= m < i :: r[m] == ClearAccepted(questionId)(answers[m])
      invariant forall m | i <= m < |r| :: r[m] == answers[m]
    {
      if r[i].questionId == questionId && r[i].isAccepted == 1 {
        r := r[i := r[i].(isAccepted := 0)];
      }
      i := i + 1;
    }
  }

  /**
   * `accept_answer`: the `update_many`, then the single updates at the rows
   * found; nothing is committed until every lookup has succeeded.
   */
  method AcceptAnswer(db: Database, answerId: int) returns (r: Result<(), AppError>)
    requires db.Valid()
    modifies db
    ensures db.Valid()
    ensures db.T() == AcceptAnswerSpec(old(db.T()), answerId).0
    ensures r == AcceptAnswerSpec(old(db.T()), answerId).1
  {
    AcceptAnswerKeepsValid(db.T(), answerId);
    var found := FindAnswer(db.answers, answerId);
    if found.None? {
      return Err(AnswerMissing);
    }
    var k := found.value;
    var a := db.answers[k];
    var foundQuestion := FindQuestion(db.questions, a.questionId);
    if foundQuestion.None? {
      return Err(QuestionMissing);
    }
    var j := foundQuestion.value;
    var q := db.questions[j];
    AcceptAnswerAnswers(db.T(), answerId, k);
    AcceptAnswerQuestions(db.T(), answerId, k, j);
    ghost var spec := AcceptAnswerSpec(db.T(), answerId);

    var answers := ClearAcceptedAnswers(db.answers, a.questionId);
    answers := answers[k := answers[k].(isAccepted := 1)];
    var questions := db.questions[j := q.(isAnswered := 1)];
    var users := db.users;
    if q.userId != a.userId {
      var author := FindUser(db.users, a.userId);
      if author.None? {
        return Err(AnswerAuthorMissing);
      }
      users := AddReputation(users, author.value, AcceptReward);
    }
    assert answers == spec.0.answers;
    assert questions == spec.0.questions;
    db.WriteAnswers(answers, db.nextAnswerId);
    db.WriteQuestions(questions, db.nextQuestionId);
    db.WriteUsers(users, db.nextUserId);
    r := Ok(());
  }
}
