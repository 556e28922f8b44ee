/**
 * `src/pages/question-detail.tsx`: one question with its answers. The page
 * converts the backend's question and answers to its own records, loads
 * the signed-in user's votes, and handles posting an answer, voting and
 * accepting an answer. The question, answer and vote services it calls are
 * not part of this model: each call is described by what it returns, and
 * `failing` names the first call that throws, if any.
 */
module QuestionDetailPage {
  import opened Wrappers
  import opened Seqs
  import opened Strings
  import opened Store
  import opened QuestionRepository
  import opened AnswerRepository
  import opened VoteRepository
  import opened UserService

  /** The author as the page shows it; the email is never filled in. */
  datatype Person = Person(userId: int, username: string, email: string)

  datatype Votes = Votes(upvotes: int, downvotes: int)

  /** The page's question record (`Question` of the client's types). */
  datatype PageQuestion = PageQuestion(
    id: int, title: string, description: string, languages: seq<string>, isSolved: bool,
    userId: int, viewedCounter: int, createdAt: int, user: Person, votes: Votes)

  /** The page's answer record (`Answer` of the client's types). */
  datatype PageAnswer = PageAnswer(
    id: int, description: string, isCorrect: bool, userId: int, createdAt: int, user: Person, votes: Votes)

  /** `mapQuestionToFrontend`. */
  function MapQuestion(q: QuestionResponse): (r: PageQuestion)
    ensures (r.id, r.title, r.description, r.languages) == (q.id, q.title, q.content, q.tags)
    ensures (r.isSolved, r.userId, r.viewedCounter, r.createdAt) == (q.isAnswered, q.userId, q.viewCount, q.createdAt)
    ensures r.user == Person(q.author.id, q.author.username, "")
    ensures r.votes == Votes(q.voteCount, 0)
  {
    PageQuestion(q.id, q.title, q.content, q.tags, q.isAnswered, q.userId, q.viewCount, q.createdAt,
                 Person(q.author.id, q.author.username, ""), Votes(q.voteCount, 0))
  }

  /** `mapAnswerToFrontend`. */
  function MapAnswer(a: AnswerResponse): (r: PageAnswer)
    ensures (r.id, r.description, r.isCorrect, r.userId, r.createdAt) == (a.id, a.content, a.isAccepted, a.userId, a.createdAt)
    ensures r.user == Person(a.author.id, a.author.username, "")
    ensures r.votes == Votes(a.voteCount, 0)
  {
    PageAnswer(a.id, a.content, a.isAccepted, a.userId, a.createdAt,
               Person(a.author.id, a.author.username, ""), Votes(a.voteCount, 0))
  }

  /**
   * What the conversion drops: questions that differ only in their update
   * time, closed flag, answer count, or their author's display name,
   * reputation and avatar look the same on the page.
   */
  lemma MapQuestionForgets(q: QuestionResponse, updatedAt: int, isClosed: bool, answerCount: int, author: UserBrief)
    requires author.id == q.author.id && author.username == q.author.username
    ensures MapQuestion(q.(updatedAt := updatedAt, isClosed := isClosed, answerCount := answerCount, author := author))
         == MapQuestion(q)
  {
  }

  /** A vote of the signed-in user, as the vote service reports it. */
  datatype VoteRef = VoteRef(id: int, voteType: string)

  /**
   * The user's vote per answer that `fetchQuestionData` collects, entry by
   * entry in the order of the answers.
   */
  function VoteTable(answers: seq<AnswerResponse>, voteOf: int -> Option<VoteRef>): map<int, Option<VoteRef>>
    decreases |answers|
  {
    if answers == [] then map[]
    else
      var last := answers[|answers| - 1];
      VoteTable(answers[..|answers| - 1], voteOf)[last.id := voteOf(last.id)]
  }

  /** The table has one entry per answer id, holding what the lookup found for it. */
  lemma {:induction false} VoteTableEntries(answers: seq<AnswerResponse>, voteOf: int -> Option<VoteRef>)
    ensures VoteTable(answers, voteOf).Keys == set i | 0 <= i < |answers| :: answers[i].id
    ensures forall id | id in VoteTable(answers, voteOf) :: VoteTable(answers, voteOf)[id] == voteOf(id)
    decreases |answers|
  {
    if answers != [] {
      var init := answers[..|answers| - 1];
      VoteTableEntries(init, voteOf);
      assert forall i | 0 <= i < |init| :: init[i] == answers[i];
      assert (set i | 0 <= i < |answers| :: answers[i].id)
          == (set i | 0 <= i < |init| :: init[i].id) + {answers[|answers| - 1].id};
    }
  }

  /** `setAnswers(prev.map(...))` after a vote: the answer with that id takes the new count. */
  function WithVotes(answers: seq<PageAnswer>, answerId: int, count: VoteCount): (r: seq<PageAnswer>)
    ensures |r| == |answers|
    ensures forall i | 0 <= i < |r| ::
      r[i] == if answers[i].id == answerId then answers[i].(votes := Votes(count.upvotes, count.downvotes)) else answers[i]
  {
    Map(answers, (a: PageAnswer) => if a.id == answerId then a.(votes := Votes(count.upvotes, count.downvotes)) else a)
  }

  /** A newer count replaces an older one: only the last vote update shows. */
  lemma WithVotesLastWins(answers: seq<PageAnswer>, answerId: int, first: VoteCount, second: VoteCount)
    ensures WithVotes(WithVotes(answers, answerId, first), answerId, second) == WithVotes(answers, answerId, second)
  {
    var r1 := WithVotes(answers, answerId, first);
    var r2 := WithVotes(r1, answerId, second);
    var r := WithVotes(answers, answerId, second);
    assert forall i | 0 <= i < |r| :: r2[i] == r[i] by {
      forall i | 0 <= i < |r| ensures r2[i] == r[i] {
        assert r1[i].id == answers[i].id;
      }
    }
  }

  /** Updates for two different answers do not interfere. */
  lemma WithVotesCommute(answers: seq<PageAnswer>, a: int, b: int, ca: VoteCount, cb: VoteCount)
    requires a != b
    ensures WithVotes(WithVotes(answers, a, ca), b, cb) == WithVotes(WithVotes(answers, b, cb), a, ca)
  {
    var x := WithVotes(WithVotes(answers, a, ca), b, cb);
    var y := WithVotes(WithVotes(answers, b, cb), a, ca);
    assert forall i | 0 <= i < |x| :: x[i] == y[i] by {
      forall i | 0 <= i < |x| ensures x[i] == y[i] {
        assert WithVotes(answers, a, ca)[i].id == answers[i].id;
        assert WithVotes(answers, b, cb)[i].id == answers[i].id;
      }
    }
  }

  /** A call the page makes to the services. */
  datatype Call =
    | CreateAnswer(userId: int, questionId: int, content: string)
    | GetQuestionAnswers(questionId: int)
    | UpdateQuestionAnswerCount(questionId: int)
    | CreateVote(userId: int, targetId: int, targetType: string, voteType: string)
    | GetVoteCount(targetId: int, targetType: string)
    | GetUserVote(userId: int, targetId: int, targetType: string)
    | AcceptAnswer(answerId: int)
    | MarkAsAnswered(questionId: int)

  /** The calls that ran: all of them, or up to and including the one that threw. */
  function Performed(planned: seq<Call>, failing: Option<nat>): (r: seq<Call>)
    ensures r <= planned
    ensures |r| < |planned| ==> failing.Some? && |r| == failing.value + 1
  {
    if failing.Some? && failing.value < |planned| then planned[..failing.value + 1] else planned
  }

  /** Call number `k` returned normally. */
  predicate Returned(k: nat, failing: Option<nat>) {
    failing.None? || failing.value > k
  }

  datatype ToastKind = Success | Error
  datatype Toast = Toast(kind: ToastKind, text: string)

  const LoadError := "Question not found or error loading data"
  const AnswerPosted := "Your answer has been posted"
  const AnswerFailed := "Failed to submit answer"
  const VoteLoginNeeded := "You need to be logged in to vote"
  const VoteRecorded := "Vote recorded"
  const VoteFailed := "Failed to submit vote"
  const AcceptLoginNeeded := "You need to be logged in"
  const AuthorOnly := "Only the question author can accept answers"
  const Accepted := "Answer accepted"
  const AcceptFailed := "Failed to accept answer"

  /** A success toast when every call up to number `last` returned, the given error toast otherwise. */
  function Outcome(last: nat, failing: Option<nat>, success: string, failure: string): Toast {
    if Returned(last, failing) then Toast(Success, success) else Toast(Error, failure)
  }

  class QuestionDetail {
    const questionId: int
    var question: Option<PageQuestion>
    var answers: seq<PageAnswer>
    var loading: bool
    var error: Option<string>
    var submitting: bool
    var questionVote: Option<VoteRef>
    var answerVotes: map<int, Option<VoteRef>>

    constructor (questionId: int)
      ensures this.questionId == questionId
      ensures question.None? && answers == [] && loading && error.None? && !submitting
      ensures questionVote.None? && answerVotes == map[]
    {
      this.questionId := questionId;
      question, answers, loading, error, submitting := None, [], true, None, false;
      questionVote, answerVotes := None, map[];
    }

    /**
     * `fetchQuestionData`: the question, then its answers, then, for a
     * signed-in user, that user's votes on the question and on each answer.
     * A failure shows the load error; the question stays if it came first.
     */
    method Fetch(fetched: Result<QuestionResponse, string>, answersData: Result<seq<AnswerResponse>, string>,
                 user: Option<SessionUser>, voteOnQuestion: Option<VoteRef>, voteOf: int -> Option<VoteRef>)
      modifies this
      ensures !loading && submitting == old(submitting)
      ensures fetched.Err? ==> question == old(question) && answers == old(answers) && error == Some(LoadError)
      ensures fetched.Ok? ==> question == Some(MapQuestion(fetched.value))
      ensures fetched.Ok? && answersData.Err? ==> answers == old(answers) && error == Some(LoadError)
      ensures fetched.Ok? && answersData.Ok? ==> answers == Map(answersData.value, MapAnswer) && error == old(error)
      ensures fetched.Ok? && answersData.Ok? && user.Some? ==>
        questionVote == voteOnQuestion && answerVotes == VoteTable(answersData.value, voteOf)
      ensures fetched.Err? || answersData.Err? || user.None? ==>
        questionVote == old(questionVote) && answerVotes == old(answerVotes)
    {
      if fetched.Err? {
        loading, error := false, Some(LoadError);
        return;
      }
      question := Some(MapQuestion(fetched.value));
      if answersData.Err? {
        loading, error := false, Some(LoadError);
        return;
      }
      var list := answersData.value;
      answers := Map(list, MapAnswer);
      if user.Some? {
        var table: map<int, Option<VoteRef>> := map[];
        var i := 0;
        while i < |list|
          invariant 0 <= i <= |list|
          invariant table == VoteTable(list[..i], voteOf)
        {
          assert list[..i + 1][..i] == list[..i];
          table := table[list[i].id := voteOf(list[i].id)];
          i := i + 1;
        }
        assert list[..|list|] == list;
        questionVote, answerVotes := voteOnQuestion, table;
      }
      loading := false;
    }

    /**
     * `handleAnswerSubmit`: ignored while a submit runs or for blank
     * content. Without a user (or with user id 0) it fails before any call.
     * Otherwise the answer is created, the answers are reloaded and shown,
     * and the question's answer count is raised.
     */
    method HandleAnswerSubmit(content: string, user: Option<SessionUser>, failing: Option<nat>, refreshed: seq<AnswerResponse>)
      returns (toast: Option<Toast>, calls: seq<Call>)
      modifies this
      ensures question == old(question) && error == old(error) && loading == old(loading)
      ensures questionVote == old(questionVote) && answerVotes == old(answerVotes)
      ensures old(submitting) || IsBlank(JavaScript, content) ==>
        toast.None? && calls == [] && answers == old(answers) && submitting == old(submitting)
      ensures !old(submitting) && !IsBlank(JavaScript, content) ==> !submitting
      ensures !old(submitting) && !IsBlank(JavaScript, content) && (user.None? || user.value.id == 0) ==>
        toast == Some(Toast(Error, AnswerFailed)) && calls == [] && answers == old(answers)
      ensures !old(submitting) && !IsBlank(JavaScript, content) && user.Some? && user.value.id != 0 ==>
        var planned := [CreateAnswer(user.value.id, questionId, content), GetQuestionAnswers(questionId),
                        UpdateQuestionAnswerCount(questionId)];
        && calls == Performed(planned, failing)
        && answers == (if Returned(1, failing) then Map(refreshed, MapAnswer) else old(answers))
        && toast == Some(Outcome(2, failing, AnswerPosted, AnswerFailed))
    {
      if submitting || Trim(JavaScript, content) == [] {
        return None, [];
      }
      submitting := true;
      if user.None? || user.value.id == 0 {
        submitting := false;
        return Some(Toast(Error, AnswerFailed)), [];
      }
      var userId := user.value.id;
      calls := [CreateAnswer(userId, questionId, content)];
      if failing == Some(0) {
        submitting := false;
        return Some(Toast(Error, AnswerFailed)), calls;
      }
      calls := calls + [GetQuestionAnswers(questionId)];
      if failing == Some(1) {
        submitting := false;
        return Some(Toast(Error, AnswerFailed)), calls;
      }
      answers := Map(refreshed, MapAnswer);
      calls := calls + [UpdateQuestionAnswerCount(questionId)];
      if failing == Some(2) {
        submitting := false;
        return Some(Toast(Error, AnswerFailed)), calls;
      }
      submitting := false;
      toast := Some(Toast(Success, AnswerPosted));
    }

    /**
     * `handleQuestionVote`: the vote is cast, the question shows the new
     * count, and the user's vote on the question is read back.
     */
    method HandleQuestionVote(voteType: string, user: Option<SessionUser>, failing: Option<nat>, count: VoteCount, vote: Option<VoteRef>)
      returns (toast: Toast, calls: seq<Call>)
      modifies this
      ensures answers == old(answers) && answerVotes == old(answerVotes)
      ensures error == old(error) && loading == old(loading) && submitting == old(submitting)
      ensures user.None? ==>
        toast == Toast(Error, VoteLoginNeeded) && calls == [] && question == old(question) && questionVote == old(questionVote)
      ensures user.Some? ==>
        var planned := [CreateVote(user.value.id, questionId, "question", voteType), GetVoteCount(questionId, "question"),
                        GetUserVote(user.value.id, questionId, "question")];
        && calls == Performed(planned, failing)
        && question == (if Returned(1, failing) && old(question).Some?
                        then Some(old(question).value.(votes := Votes(count.upvotes, count.downvotes)))
                        else old(question))
        && questionVote == (if Returned(2, failing) then vote else old(questionVote))
        && toast == Outcome(2, failing, VoteRecorded, VoteFailed)
    {
      if user.None? {
        return Toast(Error, VoteLoginNeeded), [];
      }
      var userId := user.value.id;
      calls := [CreateVote(userId, questionId, "question", voteType)];
      if failing == Some(0) {
        return Toast(Error, VoteFailed), calls;
      }
      calls := calls + [GetVoteCount(questionId, "question")];
      if failing == Some(1) {
        return Toast(Error, VoteFailed), calls;
      }
      if question.Some? {
        question := Some(question.value.(votes := Votes(count.upvotes, count.downvotes)));
      }
      calls := calls + [GetUserVote(userId, questionId, "question")];
      if failing == Some(2) {
        return Toast(Error, VoteFailed), calls;
      }
      questionVote := vote;
      toast := Toast(Success, VoteRecorded);
    }

    /**
     * `handleAnswerVote`: the vote is cast, the answer with that id (and no
     * other) shows the new count, and the user's vote on it is read back.
     */
    method HandleAnswerVote(answerId: int, voteType: string, user: Option<SessionUser>, failing: Option<nat>,
                            count: VoteCount, vote: Option<VoteRef>)
      returns (toast: Toast, calls: seq<Call>)
      modifies this
      ensures question == old(question) && questionVote == old(questionVote)
      ensures error == old(error) && loading == old(loading) && submitting == old(submitting)
      ensures user.None? ==>
        toast == Toast(Error, VoteLoginNeeded) && calls == [] && answers == old(answers) && answerVotes == old(answerVotes)
      ensures user.Some? ==>
        var planned := [CreateVote(user.value.id, answerId, "answer", voteType), GetVoteCount(answerId, "answer"),
                        GetUserVote(user.value.id, answerId, "answer")];
        && calls == Performed(planned, failing)
        && answers == (if Returned(1, failing) then WithVotes(old(answers), answerId, count) else old(answers))
        && answerVotes == (if Returned(2, failing) then old(answerVotes)[answerId := vote] else old(answerVotes))
        && toast == Outcome(2, failing, VoteRecorded, VoteFailed)
    {
      if user.None? {
        return Toast(Error, VoteLoginNeeded), [];
      }
      var userId := user.value.id;
      calls := [CreateVote(userId, answerId, "answer", voteType)];
      if failing == Some(0) {
        return Toast(Error, VoteFailed), calls;
      }
      calls := calls + [GetVoteCount(answerId, "answer")];
      if failing == Some(1) {
        return Toast(Error, VoteFailed), calls;
      }
      answers := WithVotes(answers, answerId, count);
      calls := calls + [GetUserVote(userId, answerId, "answer")];
      if failing == Some(2) {
        return Toast(Error, VoteFailed), calls;
      }
      answerVotes := answerVotes[answerId := vote];
      toast := Toast(Success, VoteRecorded);
    }

    /**
     * `handleAcceptAnswer`: only the signed-in author of the loaded question
     * may accept. The answer is accepted, the question marked answered and
     * the answers reloaded; only when all three returned does the page mark
     * the question solved and show the reloaded answers.
     */
    method HandleAcceptAnswer(answerId: int, user: Option<SessionUser>, failing: Option<nat>, refreshed: seq<AnswerResponse>)
      returns (toast: Toast, calls: seq<Call>)
      modifies this
      ensures questionVote == old(questionVote) && answerVotes == old(answerVotes)
      ensures error == old(error) && loading == old(loading) && submitting == old(submitting)
      ensures user.None? ==> toast == Toast(Error, AcceptLoginNeeded) && calls == []
      ensures user.Some? && (old(question).None? || user.value.id != old(question).value.userId) ==>
        toast == Toast(Error, AuthorOnly) && calls == []
      ensures user.Some? && old(question).Some? && user.value.id == old(question).value.userId ==>
        && calls == Performed([AcceptAnswer(answerId), MarkAsAnswered(questionId), GetQuestionAnswers(questionId)], failing)
        && toast == Outcome(2, failing, Accepted, AcceptFailed)
      ensures toast.kind == Success <==>
        user.Some? && old(question).Some? && user.value.id == old(question).value.userId && Returned(2, failing)
      ensures toast.kind == Success ==>
        question == Some(old(question).value.(isSolved := true)) && answers == Map(refreshed, MapAnswer)
      ensures toast.kind == Error ==> question == old(question) && answers == old(answers)
    {
      if user.None? {
        return Toast(Error, AcceptLoginNeeded), [];
      }
      if question.None? || user.value.id != question.value.userId {
        return Toast(Error, AuthorOnly), [];
      }
      calls := [AcceptAnswer(answerId)];
      if failing == Some(0) {
        return Toast(Error, AcceptFailed), calls;
      }
      calls := calls + [MarkAsAnswered(questionId)];
      if failing == Some(1) {
        return Toast(Error, AcceptFailed), calls;
      }
      calls := calls + [GetQuestionAnswers(questionId)];
      if failing == Some(2) {
        return Toast(Error, AcceptFailed), calls;
      }
      question := Some(question.value.(isSolved := true));
      answers := Map(refreshed, MapAnswer);
      toast := Toast(Success, Accepted);
    }
  }
}
