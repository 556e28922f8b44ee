/**
 * The database the repositories work on, taken to be SQLite. Each table of
 * the schema is a sequence of rows; each table with an `AUTO_INCREMENT` key
 * has the next id it will hand out. `Valid` holds the keys the schema
 * declares (primary keys, `UNIQUE` columns, the composite key of
 * `question_tags`) and one rule no index declares: a user has at most one
 * vote per target, which `create_vote` keeps by looking the pair up first.
 * Foreign keys are not part of `Valid`.
 */
module Store {
  import opened Wrappers
  import opened Seqs

  /**
   * A stored password hash. Argon2 and its random salt are not part of this
   * model: a hash is an abstract value that verifies exactly the password it
   * was made from.
   */
  datatype PasswordHash = Hashed(of: string)

  function Hash(password: string): PasswordHash {
    Hashed(password)
  }

  /** `Argon2::verify_password` against a stored hash. */
  predicate Verify(password: string, h: PasswordHash) {
    h.of == password
  }

  lemma VerifyHash(p: string, q: string)
    ensures Verify(q, Hash(p)) <==> q == p
  {
  }

  datatype User = User(
    id: int, username: string, email: string, passwordHash: PasswordHash,
    displayName: string, bio: Option<string>, reputation: int, createdAt: int,
    lastLogin: Option<int>, avatarUrl: Option<string>, isActive: int)

  datatype Question = Question(
    id: int, title: string, content: string, userId: int, createdAt: int,
    updatedAt: int, viewCount: int, isClosed: int, isAnswered: int)

  datatype Answer = Answer(
    id: int, questionId: int, userId: int, content: string, createdAt: int,
    updatedAt: int, isAccepted: int)

  datatype Vote = Vote(
    id: int, userId: int, targetId: int, targetType: string, voteType: string, createdAt: int)

  datatype Tag = Tag(id: int, name: string, description: Option<string>)

  /** A row of `question_tags`, keyed by the pair. */
  datatype QuestionTag = QuestionTag(questionId: int, tagId: int)

  datatype Comment = Comment(
    id: int, content: string, userId: int, targetId: int, targetType: string,
    createdAt: int, updatedAt: int)

  datatype Bookmark = Bookmark(
    id: int, userId: int, targetId: int, targetType: string, createdAt: int,
    title: string, note: Option<string>)

  /** The author summary every response embeds. */
  datatype UserBrief = UserBrief(
    id: int, username: string, displayName: string, reputation: int, avatarUrl: Option<string>)

  function Brief(u: User): UserBrief {
    UserBrief(u.id, u.username, u.displayName, u.reputation, u.avatarUrl)
  }

  function UserId(u: User): int { u.id }
  function Username(u: User): string { u.username }
  function UserEmail(u: User): string { u.email }
  function QuestionId(q: Question): int { q.id }
  function AnswerId(a: Answer): int { a.id }
  function VoteId(v: Vote): int { v.id }
  /** The key `create_vote` looks a vote up by. */
  function VoteKey(v: Vote): (int, int, string) { (v.userId, v.targetId, v.targetType) }
  function TagId(t: Tag): int { t.id }
  function TagName(t: Tag): string { t.name }
  function LinkKey(l: QuestionTag): (int, int) { (l.questionId, l.tagId) }
  function CommentId(c: Comment): int { c.id }
  function BookmarkId(b: Bookmark): int { b.id }

  /** A table whose ids are unique and below the next id to be handed out. */
  predicate TableValid<T>(s: seq<T>, id: T -> int, next: int) {
    KeysUnique(s, id) && forall i | 0 <= i < |s| :: id(s[i]) < next
  }

  lemma InsertKeepsTable<T>(s: seq<T>, id: T -> int, next: int, x: T)
    requires TableValid(s, id, next) && id(x) == next
    ensures TableValid(s + [x], id, next + 1)
  {
    AppendKeepsUnique(s, id, x);
  }

  lemma RewriteKeepsTable<T>(s: seq<T>, r: seq<T>, id: T -> int, next: int)
    requires TableValid(s, id, next) && |r| == |s|
    requires forall i | 0 <= i < |s| :: id(r[i]) == id(s[i])
    ensures TableValid(r, id, next)
  {
    SameKeysKeepUnique(s, r, id);
  }

  lemma RemoveKeepsTable<T>(s: seq<T>, id: T -> int, next: int, k: nat)
    requires TableValid(s, id, next) && k < |s|
    ensures TableValid(RemoveAt(s, k), id, next)
  {
    RemoveAtKeepsUnique(s, id, k);
  }

  /** Keeping some of the rows of a table keeps it valid. */
  lemma FilterKeepsTable<T(!new)>(s: seq<T>, p: T -> bool, id: T -> int, next: int)
    requires TableValid(s, id, next)
    ensures TableValid(Filter(s, p), id, next)
  {
    var kept := Filter(s, p);
    FilterKeepsUnique(s, p, id);
    forall i | 0 <= i < |kept|
      ensures id(kept[i]) < next
    {
      FilterFrom(s, p, i);
    }
  }

  /** The whole database as a value. */
  datatype Tables = Tables(
    users: seq<User>, questions: seq<Question>, answers: seq<Answer>, votes: seq<Vote>,
    tags: seq<Tag>, questionTags: seq<QuestionTag>, comments: seq<Comment>,
    bookmarks: seq<Bookmark>,
    nextUserId: int, nextQuestionId: int, nextAnswerId: int, nextVoteId: int,
    nextTagId: int, nextCommentId: int, nextBookmarkId: int)

  predicate UsersValid(t: Tables) {
    TableValid(t.users, UserId, t.nextUserId)
    && KeysUnique(t.users, Username) && KeysUnique(t.users, UserEmail)
  }

  predicate VotesValid(t: Tables) {
    TableValid(t.votes, VoteId, t.nextVoteId) && KeysUnique(t.votes, VoteKey)
  }

  /**
   * Tag names are unique and so are links. Every link refers to a question
   * id and a tag id already handed out: links are only ever made for the
   * question just inserted, to a tag found or just inserted.
   */
  predicate TagsValid(t: Tables) {
    && TableValid(t.tags, TagId, t.nextTagId) && KeysUnique(t.tags, TagName)
    && KeysUnique(t.questionTags, LinkKey)
    && (forall m | 0 <= m < |t.questionTags| :: t.questionTags[m].questionId < t.nextQuestionId)
    && (forall m | 0 <= m < |t.questionTags| :: t.questionTags[m].tagId < t.nextTagId)
  }

  /** The constraints of the schema. Foreign keys are not among them. */
  predicate ValidTables(t: Tables) {
    && UsersValid(t)
    && TableValid(t.questions, QuestionId, t.nextQuestionId)
    && TableValid(t.answers, AnswerId, t.nextAnswerId)
    && VotesValid(t)
    && TagsValid(t)
    && TableValid(t.comments, CommentId, t.nextCommentId)
    && TableValid(t.bookmarks, BookmarkId, t.nextBookmarkId)
  }

  function FindUser(users: seq<User>, id: int): Option<nat> { FindKey(users, UserId, id) }
  function FindQuestion(questions: seq<Question>, id: int): Option<nat> { FindKey(questions, QuestionId, id) }
  function FindAnswer(answers: seq<Answer>, id: int): Option<nat> { FindKey(answers, AnswerId, id) }

  /** Adds `delta` to the reputation of the user at index `k`. */
  function AddReputation(users: seq<User>, k: nat, delta: int): (r: seq<User>)
    requires k < |users|
    ensures |r| == |users|
    ensures r[k].reputation == users[k].reputation + delta
    ensures r[k] == users[k].(reputation := r[k].reputation)
    ensures forall i | 0 <= i < |users| && i != k :: r[i] == users[i]
  {
    users[k := users[k].(reputation := users[k].reputation + delta)]
  }

  lemma AddReputationKeepsUsers(t: Tables, k: nat, delta: int)
    requires UsersValid(t) && k < |t.users|
    ensures UsersValid(t.(users := AddReputation(t.users, k, delta)))
  {
    var r := AddReputation(t.users, k, delta);
    SameKeysKeepUnique(t.users, r, UserId);
    SameKeysKeepUnique(t.users, r, Username);
    SameKeysKeepUnique(t.users, r, UserEmail);
  }

  /**
   * The database connection every repository shares. Each repository call
   * reads the tables, computes the new rows, and assigns the tables it
   * changes at the end: a call that fails before that point leaves every
   * table as it was, as a transaction that is not committed does.
   */
  class Database {
    var users: seq<User>
    var questions: seq<Question>
    var answers: seq<Answer>
    var votes: seq<Vote>
    var tags: seq<Tag>
    var questionTags: seq<QuestionTag>
    var comments: seq<Comment>
    var bookmarks: seq<Bookmark>
    var nextUserId: int
    var nextQuestionId: int
    var nextAnswerId: int
    var nextVoteId: int
    var nextTagId: int
    var nextCommentId: int
    var nextBookmarkId: int

    function T(): Tables
      reads this
    {
      Tables(users, questions, answers, votes, tags, questionTags, comments, bookmarks,
             nextUserId, nextQuestionId, nextAnswerId, nextVoteId, nextTagId,
             nextCommentId, nextBookmarkId)
    }

    ghost predicate Valid()
      reads this
    {
      ValidTables(T())
    }

    /** A freshly migrated, empty database; SQLite hands out ids from 1. */
    constructor ()
      ensures Valid()
      ensures T() == Tables([], [], [], [], [], [], [], [], 1, 1, 1, 1, 1, 1, 1)
    {
      users, questions, answers, votes := [], [], [], [];
      tags, questionTags, comments, bookmarks := [], [], [], [];
      nextUserId, nextQuestionId, nextAnswerId, nextVoteId := 1, 1, 1, 1;
      nextTagId, nextCommentId, nextBookmarkId := 1, 1, 1;
    }

    // Each writer commits the rows of one table and its id counter.

    method WriteUsers(users': seq<User>, nextUserId': int)
      modifies this
      ensures T() == old(T()).(users := users', nextUserId := nextUserId')
    {
      users, nextUserId := users', nextUserId';
    }

    method WriteQuestions(questions': seq<Question>, nextQuestionId': int)
      modifies this
      ensures T() == old(T()).(questions := questions', nextQuestionId := nextQuestionId')
    {
      questions, nextQuestionId := questions', nextQuestionId';
    }

    method WriteAnswers(answers': seq<Answer>, nextAnswerId': int)
      modifies this
      ensures T() == old(T()).(answers := answers', nextAnswerId := nextAnswerId')
    {
      answers, nextAnswerId := answers', nextAnswerId';
    }

    method WriteVotes(votes': seq<Vote>, nextVoteId': int)
      modifies this
      ensures T() == old(T()).(votes := votes', nextVoteId := nextVoteId')
    {
      votes, nextVoteId := votes', nextVoteId';
    }

    /** Tags and their links to questions. */
    method WriteTags(tags': seq<Tag>, questionTags': seq<QuestionTag>, nextTagId': int)
      modifies this
      ensures T() == old(T()).(tags := tags', questionTags := questionTags', nextTagId := nextTagId')
    {
      tags, questionTags, nextTagId := tags', questionTags', nextTagId';
    }

    method WriteComments(comments': seq<Comment>, nextCommentId': int)
      modifies this
      ensures T() == old(T()).(comments := comments', nextCommentId := nextCommentId')
    {
      comments, nextCommentId := comments', nextCommentId';
    }

    method WriteBookmarks(bookmarks': seq<Bookmark>, nextBookmarkId': int)
      modifies this
      ensures T() == old(T()).(bookmarks := bookmarks', nextBookmarkId := nextBookmarkId')
    {
      bookmarks, nextBookmarkId := bookmarks', nextBookmarkId';
    }
  }
}
