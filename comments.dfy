/**
 * `src-tauri/src/repository/comment_repository.rs`: comments on questions
 * and answers. These calls run outside a transaction: each insert or update
 * is committed as soon as it is made, so a later failure does not undo it.
 */
module CommentRepository {
  import opened Wrappers
  import opened Seqs
  import opened Strings
  import opened Store
  import opened AppErrors
  import AnswerRepository

  /** What the comment commands return for one comment. */
  datatype CommentResponse = CommentResponse(
    id: int, content: string, userId: int, targetId: int, targetType: string,
    createdAt: int, updatedAt: int, author: UserBrief)

  const EmptyContent: AppError := Internal("Comment content cannot be empty")
  const CommentMissing: AppError := NotFound("Comment not found")
  const NotYourUpdate: AppError := Internal("You can only update your own comments")
  const NotYourDelete: AppError := Internal("You can only delete your own comments")
  const UserMissing: AppError := AnswerRepository.AuthorMissing

  /** The response for a comment: the row with the summary of the user looked up. */
  function WithAuthor(users: seq<User>, c: Comment, userId: int): (r: Result<CommentResponse, AppError>)
    ensures r.Err? <==> forall k | 0 <= k < |users| :: users[k].id != userId
    ensures r.Err? ==> r.error == UserMissing
    ensures r.Ok? ==>
      && r.value == CommentResponse(c.id, c.content, c.userId, c.targetId, c.targetType,
                                    c.createdAt, c.updatedAt, r.value.author)
      && exists k | 0 <= k < |users| :: users[k].id == userId && r.value.author == Brief(users[k])
  {
    match FindUser(users, userId)
    case None => Err(UserMissing)
    case Some(k) =>
      Ok(CommentResponse(c.id, c.content, c.userId, c.targetId, c.targetType,
                         c.createdAt, c.updatedAt, Brief(users[k])))
  }

  /** The row `create_comment` inserts: created and updated at the same instant. */
  function NewComment(t: Tables, userId: int, targetId: int, targetType: string, content: string, now: int): Comment {
    Comment(t.nextCommentId, content, userId, targetId, targetType, now, now)
  }

  /**
   * `create_comment`: blank content is refused before anything is written;
   * otherwise the row is inserted, and only then is the author looked up,
   * so a missing author fails the call after the comment was stored.
   */
  function CreateCommentSpec(t: Tables, userId: int, targetId: int, targetType: string, content: string, now: int)
    : (out: (Tables, Result<CommentResponse, AppError>))
    ensures out.0 == t.(comments := out.0.comments, nextCommentId := out.0.nextCommentId)
    ensures IsBlank(Rust, content) ==> out == (t, Err(EmptyContent))
    ensures !IsBlank(Rust, content) ==>
      && out.0.comments == t.comments + [NewComment(t, userId, targetId, targetType, content, now)]
      && out.0.nextCommentId == t.nextCommentId + 1
      && (out.1.Err? <==> forall k | 0 <= k < |t.users| :: t.users[k].id != userId)
      && (out.1.Err? ==> out.1.error == UserMissing)
    ensures out.1.Ok? ==>
      && (out.1.value.id, out.1.value.content, out.1.value.userId) == (t.nextCommentId, content, userId)
      && (out.1.value.targetId, out.1.value.targetType) == (targetId, targetType)
      && out.1.value.createdAt == out.1.value.updatedAt == now
  {
    if Trim(Rust, content) == [] then (t, Err(EmptyContent))
    else
      var c := NewComment(t, userId, targetId, targetType, content, now);
      var t' := t.(comments := t.comments + [c], nextCommentId := t.nextCommentId + 1);
      (t', WithAuthor(t'.users, c, userId))
  }

  lemma CreateCommentKeepsValid(t: Tables, userId: int, targetId: int, targetType: string, content: string, now: int)
    requires ValidTables(t)
    ensures ValidTables(CreateCommentSpec(t, userId, targetId, targetType, content, now).0)
  {
    if !IsBlank(Rust, content) {
      InsertKeepsTable(t.comments, CommentId, t.nextCommentId, NewComment(t, userId, targetId, targetType, content, now));
    }
  }

  method CreateComment(db: Database, userId: int, targetId: int, targetType: string, content: string, now: int)
    returns (r: Result<CommentResponse, AppError>)
    requires db.Valid()
    modifies db
    ensures db.Valid()
    ensures db.T() == CreateCommentSpec(old(db.T()), userId, targetId, targetType, content, now).0
    ensures r == CreateCommentSpec(old(db.T()), userId, targetId, targetType, content, now).1
  {
    CreateCommentKeepsValid(db.T(), userId, targetId, targetType, content, now);
    if Trim(Rust, content) == [] {
      return Err(EmptyContent);
    }
    var comment := NewComment(db.T(), userId, targetId, targetType, content, now);
    db.WriteComments(db.comments + [comment], db.nextCommentId + 1);
    r := WithAuthor(db.users, comment, userId);
  }

  function NewerFirst(): (Comment, Comment) -> bool {
    (a: Comment, b: Comment) => a.createdAt >= b.createdAt
  }

  /** A comment on the given target. */
  function OnTarget(targetId: int, targetType: string): Comment -> bool {
    (c: Comment) => c.targetId == targetId && c.targetType == targetType
  }

  /**
   * The rows the query of `get_comments` returns: exactly the comments on
   * the target, each as often as it is stored, newest first.
   */
  function CommentsOn(comments: seq<Comment>, targetId: int, targetType: string): (r: seq<Comment>)
    ensures forall c :: (multiset(r)[c] ==
      if c.targetId == targetId && c.targetType == targetType then multiset(comments)[c] else 0)
    ensures forall i, j | 0 <= i < j < |r| :: r[i].createdAt >= r[j].createdAt
  {
    assert Total(NewerFirst()) && Transitive(NewerFirst());
    var s := SortBy(Filter(comments, OnTarget(targetId, targetType)), NewerFirst());
    assert SortedBy(s, NewerFirst());
    s
  }

  function CommentResponder(users: seq<User>): Comment -> Result<CommentResponse, AppError> {
    (c: Comment) => WithAuthor(users, c, c.userId)
  }

  /** The loop of `get_comments`, stopping at the first comment whose author is missing. */
  method CollectCommentResponses(users: seq<User>, rows: seq<Comment>) returns (r: Result<seq<CommentResponse>, AppError>)
    ensures r == MapResult(rows, CommentResponder(users))
  {
    var responses: seq<CommentResponse> := [];
    var i := 0;
    while i < |rows|
      invariant 0 <= i <= |rows|
      invariant MapResult(rows[..i], CommentResponder(users)) == Ok(responses)
    {
      var response := WithAuthor(users, rows[i], rows[i].userId);
      if response.Err? {
        MapResultStops(rows, CommentResponder(users), i, |rows|);
        assert rows[..|rows|] == rows;
        return Err(response.error);
      }
      assert rows[..i + 1][..i] == rows[..i];
      responses := responses + [response.value];
      i := i + 1;
    }
    assert rows[..i] == rows;
    r := Ok(responses);
  }

  /** `get_comments`. */
  method GetComments(db: Database, targetId: int, targetType: string) returns (r: Result<seq<CommentResponse>, AppError>)
    ensures r == MapResult(CommentsOn(db.comments, targetId, targetType), CommentResponder(db.users))
    ensures r.Err? ==> r.error == UserMissing
  {
    r := CollectCommentResponses(db.users, CommentsOn(db.comments, targetId, targetType));
  }

  function FindComment(comments: seq<Comment>, id: int): Option<nat> { FindKey(comments, CommentId, id) }

  /**
   * `update_comment`: blank content, then a missing comment, then another
   * user's comment are refused without a write; otherwise the content and
   * `updated_at` are written, and then the user is looked up.
   */
  function UpdateCommentSpec(t: Tables, id: int, userId: int, content: string, now: int)
    : (out: (Tables, Result<CommentResponse, AppError>))
    ensures out.0 == t.(comments := out.0.comments)
    ensures IsBlank(Rust, content) ==> out == (t, Err(EmptyContent))
    ensures !IsBlank(Rust, content) && (forall k | 0 <= k < |t.comments| :: t.comments[k].id != id) ==>
      out == (t, Err(CommentMissing))
  {
    if Trim(Rust, content) == [] then (t, Err(EmptyContent))
    else match FindComment(t.comments, id)
      case None => (t, Err(CommentMissing))
      case Some(k) =>
        var c := t.comments[k];
        if c.userId != userId then (t, Err(NotYourUpdate))
        else
          var c' := c.(content := content, updatedAt := now);
          (t.(comments := t.comments[k := c']), WithAuthor(t.users, c', userId))
  }

  /**
   * On the stored comment with that id: another user is refused with no
   * change; the owner's call rewrites only that comment's content and
   * `updated_at`, and then fails only when the owner's user row is missing.
   */
  lemma UpdateCommentFound(t: Tables, id: int, userId: int, content: string, now: int, k: nat)
    requires KeysUnique(t.comments, CommentId) && k < |t.comments| && t.comments[k].id == id
    requires !IsBlank(Rust, content)
    ensures var out := UpdateCommentSpec(t, id, userId, content, now);
      && (t.comments[k].userId != userId ==> out == (t, Err(NotYourUpdate)))
      && (t.comments[k].userId == userId ==>
            && out.0.comments == t.comments[k := t.comments[k].(content := content, updatedAt := now)]
            && (out.1.Err? <==> forall j | 0 <= j < |t.users| :: t.users[j].id != userId)
            && (out.1.Ok? ==> out.1.value.content == content && out.1.value.updatedAt == now
                              && out.1.value.createdAt == t.comments[k].createdAt))
  {
    FindKeyUnique(t.comments, CommentId, k);
  }

  lemma UpdateCommentKeepsValid(t: Tables, id: int, userId: int, content: string, now: int)
    requires ValidTables(t)
    ensures ValidTables(UpdateCommentSpec(t, id, userId, content, now).0)
  {
    var out := UpdateCommentSpec(t, id, userId, content, now);
    RewriteKeepsTable(t.comments, out.0.comments, CommentId, t.nextCommentId);
  }

  method UpdateComment(db: Database, id: int, userId: int, content: string, now: int)
    returns (r: Result<CommentResponse, AppError>)
    requires db.Valid()
    modifies db
    ensures db.Valid()
    ensures db.T() == UpdateCommentSpec(old(db.T()), id, userId, content, now).0
    ensures r == UpdateCommentSpec(old(db.T()), id, userId, content, now).1
  {
    UpdateCommentKeepsValid(db.T(), id, userId, content, now);
    if Trim(Rust, content) == [] {
      return Err(EmptyContent);
    }
    var found := FindComment(db.comments, id);
    if found.None? {
      return Err(CommentMissing);
    }
    var comment := db.comments[found.value];
    if comment.userId != userId {
      return Err(NotYourUpdate);
    }
    var updated := comment.(content := content, updatedAt := now);
    db.WriteComments(db.comments[found.value := updated], db.nextCommentId);
    r := WithAuthor(db.users, updated, userId);
  }

  /** `delete_comment`: a missing comment, then another user's comment, are refused. */
  function DeleteCommentSpec(t: Tables, id: int, userId: int): (out: (Tables, Result<(), AppError>))
    ensures out.0 == t.(comments := out.0.comments)
    ensures (forall k | 0 <= k < |t.comments| :: t.comments[k].id != id) ==> out == (t, Err(CommentMissing))
    ensures out.1.Err? ==> out.0 == t
  {
    match FindComment(t.comments, id)
    case None => (t, Err(CommentMissing))
    case Some(k) =>
      if t.comments[k].userId != userId then (t, Err(NotYourDelete))
      else (t.(comments := RemoveAt(t.comments, k)), Ok(()))
  }

  /**
   * On the stored comment with that id: another user is refused with no
   * change; the owner's call removes that row and keeps every other one.
   */
  lemma DeleteCommentFound(t: Tables, id: int, userId: int, k: nat)
    requires KeysUnique(t.comments, CommentId) && k < |t.comments| && t.comments[k].id == id
    ensures var out := DeleteCommentSpec(t, id, userId);
      && (t.comments[k].userId != userId ==> out == (t, Err(NotYourDelete)))
      && (t.comments[k].userId == userId ==>
            && out.1 == Ok(())
            && |out.0.comments| == |t.comments| - 1
            && forall c :: c in out.0.comments <==> c in t.comments && c.id != id)
  {
    FindKeyUnique(t.comments, CommentId, k);
    if t.comments[k].userId == userId {
      var r := RemoveAt(t.comments, k);
      forall c
        ensures c in r <==> c in t.comments && c.id != id
      {
        if c in r {
          var i :| 0 <= i < |r| && r[i] == c;
          var i' := if i < k then i else i + 1;
          assert c == t.comments[i'];
          assert CommentId(t.comments[i']) != CommentId(t.comments[k]);
        }
        if c in t.comments && c.id != id {
          var i :| 0 <= i < |t.comments| && t.comments[i] == c;
          assert i != k;
          assert c == r[if i < k then i else i - 1];
        }
      }
    }
  }

  lemma DeleteCommentKeepsValid(t: Tables, id: int, userId: int)
    requires ValidTables(t)
    ensures ValidTables(DeleteCommentSpec(t, id, userId).0)
  {
    match FindComment(t.comments, id)
    case None =>
    case Some(k) =>
      RemoveKeepsTable(t.comments, CommentId, t.nextCommentId, k);
  }

  method DeleteComment(db: Database, id: int, userId: int) returns (r: Result<(), AppError>)
    requires db.Valid()
    modifies db
    ensures db.Valid()
    ensures db.T() == DeleteCommentSpec(old(db.T()), id, userId).0
    ensures r == DeleteCommentSpec(old(db.T()), id, userId).1
  {
    DeleteCommentKeepsValid(db.T(), id, userId);
    var found := FindComment(db.comments, id);
    if found.None? {
      return Err(CommentMissing);
    }
    if db.comments[found.value].userId != userId {
      return Err(NotYourDelete);
    }
    db.WriteComments(RemoveAt(db.comments, found.value), db.nextCommentId);
    r := Ok(());
  }
}
