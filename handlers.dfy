/**
 * `src-tauri/src/handlers/question_handlers.rs`: the commands that check the
 * title of a new question and fill in the paging defaults before handing
 * over to the question repository.
 */
module QuestionHandlers {
  import opened Wrappers
  import opened Seqs
  import opened Strings
  import opened Store
  import opened AppErrors
  import opened QuestionRepository

  const BlankTitle := "Title cannot be empty"

  /** The body of `create_question`; content and tags are not checked here. */
  datatype CreateQuestionRequest = CreateQuestionRequest(title: string, content: string, tags: seq<string>)

  /**
   * `create_question`: a blank title is refused without touching the
   * database; otherwise the repository runs with the request's fields as
   * given and its error, if any, is displayed.
   */
  method CreateQuestion(db: Database, userId: int, request: CreateQuestionRequest, now: int)
    returns (r: Result<QuestionResponse, string>)
    requires db.Valid()
    modifies db
    ensures db.Valid()
    ensures IsBlank(Rust, request.title) ==> db.T() == old(db.T()) && r == Err(BlankTitle)
    ensures !IsBlank(Rust, request.title) ==>
      var out := CreateQuestionSpec(old(db.T()), userId, request.title, request.content, request.tags, now);
      db.T() == out.0 && r == ToCommandResult(out.1)
  {
    if Trim(Rust, request.title) == [] {
      return Err(BlankTitle);
    }
    var response := QuestionRepository.CreateQuestion(db, userId, request.title, request.content, request.tags, now);
    r := ToCommandResult(response);
  }

  /**
   * `get_question`: the stored question with its author, tags and counts,
   * or the repository's "not found" error displayed.
   */
  method GetQuestion(db: Database, id: int) returns (r: Result<QuestionResponse, string>)
    requires db.Valid()
    ensures (forall i | 0 <= i < |db.questions| :: db.questions[i].id != id) ==>
      r == Err("Not found: Question not found")
    ensures forall i | 0 <= i < |db.questions| && db.questions[i].id == id ::
      r == ToCommandResult(TransformQuestion(db.T(), db.questions[i], TagNamesOf(db.T(), id)))
  {
    var response := GetQuestionById(db.T(), id);
    assert Display(NotFound("Question not found")) == "Not found: Question not found";
    r := ToCommandResult(response);
  }

  /** The query of `list_questions`; every field may be missing. */
  datatype QuestionQuery = QuestionQuery(
    page: Option<nat>, perPage: Option<nat>, sortBy: Option<string>, tag: Option<string>, search: Option<string>)

  const DefaultPage: nat := 1
  const DefaultPerPage: nat := 10

  /** `unwrap_or`: the value given, or the default when it is missing. */
  function OrDefault(v: Option<nat>, default: nat): (r: nat)
    ensures v.Some? ==> r == v.value
    ensures v.None? ==> r == default
  {
    if v.Some? then v.value else default
  }

  /**
   * `list_questions`: page 1 and 10 rows per page when the query does not
   * say; the order, the tag and the search term are passed on unchanged.
   */
  method ListQuestions(db: Database, query: QuestionQuery) returns (r: Result<seq<QuestionResponse>, string>)
    requires query.page != Some(0)
    ensures var page := OrDefault(query.page, DefaultPage);
      var perPage := OrDefault(query.perPage, DefaultPerPage);
      page >= 1 &&
      r == ToCommandResult(MapResult(QueryRows(db.questions, page, perPage, query.sortBy, query.search),
                                     QuestionResponder(db.T())))
  {
    var page := OrDefault(query.page, DefaultPage);
    var perPage := OrDefault(query.perPage, DefaultPerPage);
    var responses := QuestionRepository.ListQuestions(db, page, perPage, query.sortBy, query.tag, query.search);
    r := ToCommandResult(responses);
  }

  /** A query with no paging asks for the first ten rows of the ordered search result. */
  lemma DefaultQueryIsFirstPage(questions: seq<Question>, sortBy: Option<string>, search: Option<string>)
    ensures var rows := QueryRows(questions, OrDefault(None, DefaultPage), OrDefault(None, DefaultPerPage), sortBy, search);
      var all := Ordered(questions, sortBy, search);
      rows == if |all| <= 10 then all else all[..10]
  {
    var all := Ordered(questions, sortBy, search);
    var rows := QueryRows(questions, 1, 10, sortBy, search);
    assert Offset(1, 10) == 0;
    if |all| <= 10 {
      assert rows == all[0..];
    }
  }
}

/**
 * `src-tauri/src/handlers/answer_handlers.rs`: the commands that check the
 * content of a new answer and hand the answer commands over to the answer
 * repository.
 */
module AnswerHandlers {
  import opened Wrappers
  import opened Seqs
  import opened Strings
  import opened Store
  import opened AppErrors
  import opened AnswerRepository

  const BlankAnswer := "Answer content cannot be empty."

  /** The body of `create_answer`. */
  datatype CreateAnswerRequest = CreateAnswerRequest(questionId: int, content: string)

  /**
   * `create_answer`: blank content is refused without touching the
   * database; otherwise the repository gets the question id, the user id
   * and the content, in its own parameter order.
   */
  method CreateAnswer(db: Database, userId: int, request: CreateAnswerRequest, now: int)
    returns (r: Result<AnswerResponse, string>)
    requires db.Valid()
    modifies db
    ensures db.Valid()
    ensures IsBlank(Rust, request.content) ==> db.T() == old(db.T()) && r == Err(BlankAnswer)
    ensures !IsBlank(Rust, request.content) ==>
      var out := CreateAnswerSpec(old(db.T()), request.questionId, userId, request.content, now);
      db.T() == out.0 && r == ToCommandResult(out.1)
  {
    if Trim(Rust, request.content) == [] {
      return Err(BlankAnswer);
    }
    var response := AnswerRepository.CreateAnswer(db, request.questionId, userId, request.content, now);
    r := ToCommandResult(response);
  }

  /** `get_question_answers`: the repository's list as it is, or its error displayed. */
  method GetQuestionAnswers(db: Database, questionId: int) returns (r: Result<seq<AnswerResponse>, string>)
    ensures r == ToCommandResult(MapResult(AnswersOf(db.answers, questionId), Responder(db.T())))
    ensures r.Err? ==> r.error == Display(AuthorMissing)
  {
    var responses := AnswerRepository.GetAnswersByQuestionId(db, questionId);
    r := ToCommandResult(responses);
  }

  /** `accept_answer`: success carries nothing; an error is displayed. */
  method AcceptAnswer(db: Database, answerId: int) returns (r: Result<(), string>)
    requires db.Valid()
    modifies db
    ensures db.Valid()
    ensures db.T() == AcceptAnswerSpec(old(db.T()), answerId).0
    ensures r == ToCommandResult(AcceptAnswerSpec(old(db.T()), answerId).1)
  {
    var outcome := AnswerRepository.AcceptAnswer(db, answerId);
    r := ToCommandResult(outcome);
  }

  /** The messages `accept_answer` reports for a missing answer and a missing question. */
  lemma AcceptAnswerMessages(t: Tables, answerId: int)
    ensures FindAnswer(t.answers, answerId).None? ==>
      ToCommandResult(AcceptAnswerSpec(t, answerId).1) == Err("Not found: Answer not found")
    ensures FindAnswer(t.answers, answerId).Some? &&
            FindQuestion(t.questions, t.answers[FindAnswer(t.answers, answerId).value].questionId).None? ==>
      ToCommandResult(AcceptAnswerSpec(t, answerId).1) == Err("Not found: Question not found")
  {
    var out := AcceptAnswerSpec(t, answerId);
    if out.1 == Err(AnswerMissing) {
      assert Display(AnswerMissing) == "Not found: Answer not found";
    } else if out.1 == Err(QuestionMissing) {
      assert Display(QuestionMissing) == "Not found: Question not found";
    }
  }
}
