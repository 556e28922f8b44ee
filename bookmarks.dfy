/**
 * `src-tauri/src/repository/bookmark_repository.rs`: a user's bookmarks of
 * questions and answers, and the snapshot of the bookmarked content that
 * `get_bookmark` returns with the bookmark.
 */
module BookmarkRepository {
  import opened Wrappers
  import opened Seqs
  import opened Strings
  import opened Store
  import opened AppErrors
  import AnswerRepository

  /** What the bookmark commands return for one bookmark. */
  datatype BookmarkResponse = BookmarkResponse(
    id: int, userId: int, targetId: int, targetType: string, createdAt: int,
    title: string, note: Option<string>)

  /** What is shown of the bookmarked question or answer. */
  datatype Snapshot = Snapshot(title: string, preview: string, authorName: string, authorId: int)

  datatype BookmarkWithContent = BookmarkWithContent(bookmark: BookmarkResponse, contentSnapshot: Option<Snapshot>)

  const BookmarkMissing: AppError := NotFound("Bookmark not found")

  function ToResponse(b: Bookmark): BookmarkResponse {
    BookmarkResponse(b.id, b.userId, b.targetId, b.targetType, b.createdAt, b.title, b.note)
  }

  /** The title of a bookmark created without one. */
  function DefaultTitle(targetType: string, targetId: int): string {
    "Bookmark for " + targetType + " " + IntToString(targetId)
  }

  /** Default titles of two bookmarks of the same kind of target tell the targets apart. */
  lemma DefaultTitleNamesTarget(targetType: string, a: int, b: int)
    requires DefaultTitle(targetType, a) == DefaultTitle(targetType, b)
    ensures a == b
  {
    var prefix := "Bookmark for " + targetType + " ";
    assert DefaultTitle(targetType, a) == prefix + IntToString(a);
    assert DefaultTitle(targetType, b) == prefix + IntToString(b);
    assert IntToString(a) == (prefix + IntToString(a))[|prefix|..];
    assert IntToString(b) == (prefix + IntToString(b))[|prefix|..];
    IntToStringInjective(a, b);
  }

  /** The title `create_bookmark` stores: the one given, or the default. */
  function BookmarkTitle(title: Option<string>, targetType: string, targetId: int): string {
    match title
    case Some(s) => s
    case None => DefaultTitle(targetType, targetId)
  }

  function NewBookmark(t: Tables, userId: int, targetId: int, targetType: string,
                       title: Option<string>, note: Option<string>, now: int): Bookmark {
    Bookmark(t.nextBookmarkId, userId, targetId, targetType, now, BookmarkTitle(title, targetType, targetId), note)
  }

  /** `create_bookmark`: the row is inserted and returned; the target is not checked. */
  function CreateBookmarkSpec(t: Tables, userId: int, targetId: int, targetType: string,
                              title: Option<string>, note: Option<string>, now: int)
    : (out: (Tables, Result<BookmarkResponse, AppError>))
    ensures out.0 == t.(bookmarks := out.0.bookmarks, nextBookmarkId := t.nextBookmarkId + 1)
    ensures |out.0.bookmarks| == |t.bookmarks| + 1 && t.bookmarks <= out.0.bookmarks
    ensures out.1.Ok? && out.1.value == ToResponse(out.0.bookmarks[|t.bookmarks|])
    ensures var r := out.1.value;
      && (r.id, r.userId, r.targetId, r.targetType, r.createdAt, r.note)
         == (t.nextBookmarkId, userId, targetId, targetType, now, note)
      && (title.Some? ==> r.title == title.value)
      && (title.None? ==> r.title == "Bookmark for " + targetType + " " + IntToString(targetId))
  {
    var b := NewBookmark(t, userId, targetId, targetType, title, note, now);
    (t.(bookmarks := t.bookmarks + [b], nextBookmarkId := t.nextBookmarkId + 1), Ok(ToResponse(b)))
  }

  lemma CreateBookmarkKeepsValid(t: Tables, userId: int, targetId: int, targetType: string,
                                 title: Option<string>, note: Option<string>, now: int)
    requires ValidTables(t)
    ensures ValidTables(CreateBookmarkSpec(t, userId, targetId, targetType, title, note, now).0)
  {
    InsertKeepsTable(t.bookmarks, BookmarkId, t.nextBookmarkId, NewBookmark(t, userId, targetId, targetType, title, note, now));
  }

  method CreateBookmark(db: Database, userId: int, targetId: int, targetType: string,
                        title: Option<string>, note: Option<string>, now: int)
    returns (r: Result<BookmarkResponse, AppError>)
    requires db.Valid()
    modifies db
    ensures db.Valid()
    ensures db.T() == CreateBookmarkSpec(old(db.T()), userId, targetId, targetType, title, note, now).0
    ensures r == CreateBookmarkSpec(old(db.T()), userId, targetId, targetType, title, note, now).1
  {
    CreateBookmarkKeepsValid(db.T(), userId, targetId, targetType, title, note, now);
    var bookmarkTitle := if title.Some? then title.value else DefaultTitle(targetType, targetId);
    var bookmark := Bookmark(db.nextBookmarkId, userId, targetId, targetType, now, bookmarkTitle, note);
    db.WriteBookmarks(db.bookmarks + [bookmark], db.nextBookmarkId + 1);
    r := Ok(ToResponse(bookmark));
  }

  function NewerFirst(): (Bookmark, Bookmark) -> bool {
    (a: Bookmark, b: Bookmark) => a.createdAt >= b.createdAt
  }

  function OwnedBy(userId: int): Bookmark -> bool {
    (b: Bookmark) => b.userId == userId
  }

  /** The rows of `list_bookmarks`: exactly the user's bookmarks, newest first. */
  function BookmarksOf(bookmarks: seq<Bookmark>, userId: int): (r: seq<Bookmark>)
    ensures forall b :: (multiset(r)[b] == if b.userId == userId then multiset(bookmarks)[b] else 0)
    ensures forall i, j | 0 <= i < j < |r| :: r[i].createdAt >= r[j].createdAt
  {
    assert Total(NewerFirst()) && Transitive(NewerFirst());
    var s := SortBy(Filter(bookmarks, OwnedBy(userId)), NewerFirst());
    assert SortedBy(s, NewerFirst());
    s
  }

  /** `list_bookmarks`. */
  function ListBookmarks(t: Tables, userId: int): seq<BookmarkResponse> {
    Map(BookmarksOf(t.bookmarks, userId), ToResponse)
  }

  /** `list_bookmarks` returns responses for the user's own stored bookmarks only, newest first. */
  lemma ListBookmarksOwn(t: Tables, userId: int)
    ensures var r := ListBookmarks(t, userId);
      && (forall i | 0 <= i < |r| :: r[i].userId == userId
            && exists k | 0 <= k < |t.bookmarks| :: r[i] == ToResponse(t.bookmarks[k]))
      && (forall i, j | 0 <= i < j < |r| :: r[i].createdAt >= r[j].createdAt)
  {
    var rows := BookmarksOf(t.bookmarks, userId);
    var r := ListBookmarks(t, userId);
    forall i | 0 <= i < |r|
      ensures r[i].userId == userId && exists k | 0 <= k < |t.bookmarks| :: r[i] == ToResponse(t.bookmarks[k])
    {
      assert rows[i] in multiset(rows);
      assert rows[i] in multiset(t.bookmarks);
      var k :| 0 <= k < |t.bookmarks| && t.bookmarks[k] == rows[i];
    }
  }

  /** Every bookmark of the user is in `list_bookmarks`. */
  lemma ListBookmarksComplete(t: Tables, userId: int)
    ensures var r := ListBookmarks(t, userId);
      forall k | 0 <= k < |t.bookmarks| && t.bookmarks[k].userId == userId :: ToResponse(t.bookmarks[k]) in r
  {
    var rows := BookmarksOf(t.bookmarks, userId);
    var r := ListBookmarks(t, userId);
    forall k | 0 <= k < |t.bookmarks| && t.bookmarks[k].userId == userId
      ensures ToResponse(t.bookmarks[k]) in r
    {
      assert t.bookmarks[k] in multiset(t.bookmarks);
      assert t.bookmarks[k] in multiset(rows);
      var i :| 0 <= i < |rows| && rows[i] == t.bookmarks[k];
      assert r[i] == ToResponse(rows[i]);
    }
  }

  /** `find_by_id(id)` filtered by `user_id`. */
  function FindOwned(bookmarks: seq<Bookmark>, id: int, userId: int): (r: Option<nat>)
    ensures r.None? <==> forall k | 0 <= k < |bookmarks| :: !(bookmarks[k].id == id && bookmarks[k].userId == userId)
    ensures r.Some? ==> r.value < |bookmarks| && bookmarks[r.value].id == id && bookmarks[r.value].userId == userId
  {
    FindFirst(bookmarks, (b: Bookmark) => b.id == id && b.userId == userId)
  }

  /**
   * `truncate_content` as written: the length test counts UTF-8 bytes
   * (`len()`), the cut counts characters (`chars().take(max)`).
   */
  function TruncateAsWritten(content: string, max: nat): string {
    if Utf8Len(content) <= max then content
    else (if |content| <= max then content else content[..max]) + "..."
  }

  /**
   * What the code as written returns: the text itself when its bytes fit,
   * and otherwise at most `max` of its first characters followed by "...".
   */
  lemma TruncateAsWrittenShape(content: string, max: nat)
    ensures var r := TruncateAsWritten(content, max);
      && (Utf8Len(content) <= max ==> r == content)
      && (Utf8Len(content) > max ==>
            var kept := if |content| <= max then |content| else max;
            |r| == kept + 3 && r[..kept] == content[..kept] && r[kept..] == "...")
      && |r| <= |content| + 3
  {
  }

  /**
   * 150 copies of 'é' are 150 characters but 300 bytes: the text is not
   * cut at all, yet it is marked as cut.
   */
  lemma TruncateAsWrittenMarksUncutText()
    ensures var s := seq(150, _ => 'é');
      |s| <= 150 && TruncateAsWritten(s, 150) == s + "..."
  {
    var s := seq(150, _ => 'é');
    assert s[0] as int >= 0x80;
    assert Utf8Len(s) != |s|;
  }

  /** The preview: the text itself when it has at most `max` characters, else its first `max` and "...". */
  function Truncate(content: string, max: nat): string {
    if |content| <= max then content else content[..max] + "..."
  }

  /**
   * A text of at most `max` characters is its own preview. A longer text is
   * cut to exactly its first `max` characters, followed by "...". On ASCII
   * text the preview agrees with the code as written.
   */
  lemma TruncateIsPreview(content: string, max: nat)
    ensures var r := Truncate(content, max);
      && (|content| <= max ==> r == content)
      && (|content| > max ==> |r| == max + 3 && r[..max] == content[..max] && r[max..] == "...")
      && |r| <= max + 3
      && ((forall i | 0 <= i < |content| :: content[i] as int < 0x80) ==> r == TruncateAsWritten(content, max))
  {
  }

  const PreviewLength: nat := 150

  /**
   * `get_content_snapshot`: a question's title, the preview of its content
   * and its author; for an answer, "Answer to: " and its question's title,
   * the preview of the answer and the answer's author. Any other kind of
   * target is refused.
   */
  function ContentSnapshot(t: Tables, targetId: int, targetType: string): (r: Result<Snapshot, AppError>)
    ensures targetType != "question" && targetType != "answer" ==>
      r == Err(Internal("Unsupported target type: " + targetType))
    ensures targetType == "question" && FindQuestion(t.questions, targetId).None? ==>
      r == Err(AnswerRepository.QuestionMissing)
    ensures targetType == "answer" && FindAnswer(t.answers, targetId).None? ==>
      r == Err(AnswerRepository.AnswerMissing)
    ensures r.Ok? && targetType == "question" ==>
      exists k | 0 <= k < |t.questions| :: t.questions[k].id == targetId && r.value.title == t.questions[k].title
    ensures r.Ok? && targetType == "answer" ==>
      exists k | 0 <= k < |t.questions| :: r.value.title == "Answer to: " + t.questions[k].title
  {
    if targetType == "question" then
      match FindQuestion(t.questions, targetId)
      case None => Err(AnswerRepository.QuestionMissing)
      case Some(k) =>
        var q := t.questions[k];
        (match FindUser(t.users, q.userId)
         case None => Err(AnswerRepository.AuthorMissing)
         case Some(u) =>
           Ok(Snapshot(q.title, TruncateAsWritten(q.content, PreviewLength), t.users[u].displayName, t.users[u].id)))
    else if targetType == "answer" then
      match FindAnswer(t.answers, targetId)
      case None => Err(AnswerRepository.AnswerMissing)
      case Some(k) =>
        var a := t.answers[k];
        (match FindQuestion(t.questions, a.questionId)
         case None => Err(AnswerRepository.QuestionMissing)
         case Some(j) =>
           (match FindUser(t.users, a.userId)
            case None => Err(AnswerRepository.AuthorMissing)
            case Some(u) =>
              Ok(Snapshot("Answer to: " + t.questions[j].title, TruncateAsWritten(a.content, PreviewLength),
                          t.users[u].displayName, t.users[u].id))))
    else Err(Internal("Unsupported target type: " + targetType))
  }

  /**
   * The snapshot of a stored question whose author is stored: its own title,
   * the preview of its content, its author.
   */
  lemma QuestionSnapshot(t: Tables, targetId: int, k: nat, u: nat)
    requires ValidTables(t)
    requires k < |t.questions| && t.questions[k].id == targetId
    requires u < |t.users| && t.users[u].id == t.questions[k].userId
    ensures ContentSnapshot(t, targetId, "question") ==
      Ok(Snapshot(t.questions[k].title, TruncateAsWritten(t.questions[k].content, PreviewLength),
                  t.users[u].displayName, t.users[u].id))
  {
    FindKeyUnique(t.questions, QuestionId, k);
    FindKeyUnique(t.users, UserId, u);
  }

  /**
   * A stored question or answer whose author row is missing has no
   * snapshot: "User not found".
   */
  lemma SnapshotAuthorMissing(t: Tables, targetId: int, targetType: string)
    requires targetType == "question" || targetType == "answer"
    ensures targetType == "question" && FindQuestion(t.questions, targetId).Some?
            && FindUser(t.users, t.questions[FindQuestion(t.questions, targetId).value].userId).None? ==>
      ContentSnapshot(t, targetId, targetType) == Err(AnswerRepository.AuthorMissing)
    ensures targetType == "answer" && FindAnswer(t.answers, targetId).Some?
            && FindQuestion(t.questions, t.answers[FindAnswer(t.answers, targetId).value].questionId).Some?
            && FindUser(t.users, t.answers[FindAnswer(t.answers, targetId).value].userId).None? ==>
      ContentSnapshot(t, targetId, targetType) == Err(AnswerRepository.AuthorMissing)
  {
  }

  /**
   * The snapshot of a stored answer whose question and author are stored:
   * titled after the question, previewing the answer, naming its author.
   */
  lemma AnswerSnapshot(t: Tables, targetId: int, k: nat, j: nat, u: nat)
    requires ValidTables(t)
    requires k < |t.answers| && t.answers[k].id == targetId
    requires j < |t.questions| && t.questions[j].id == t.answers[k].questionId
    requires u < |t.users| && t.users[u].id == t.answers[k].userId
    ensures ContentSnapshot(t, targetId, "answer") ==
      Ok(Snapshot("Answer to: " + t.questions[j].title, TruncateAsWritten(t.answers[k].content, PreviewLength),
                  t.users[u].displayName, t.users[u].id))
  {
    FindKeyUnique(t.answers, AnswerId, k);
    FindKeyUnique(t.questions, QuestionId, j);
    FindKeyUnique(t.users, UserId, u);
  }

  /** `get_bookmark`: only the caller's own bookmark, with the snapshot of its target. */
  function GetBookmark(t: Tables, id: int, userId: int): (r: Result<BookmarkWithContent, AppError>)
    ensures (forall k | 0 <= k < |t.bookmarks| :: !(t.bookmarks[k].id == id && t.bookmarks[k].userId == userId))
      ==> r == Err(BookmarkMissing)
    ensures r.Ok? ==> r.value.contentSnapshot.Some? && r.value.bookmark.id == id && r.value.bookmark.userId == userId
  {
    match FindOwned(t.bookmarks, id, userId)
    case None => Err(BookmarkMissing)
    case Some(k) =>
      var b := t.bookmarks[k];
      match ContentSnapshot(t, b.targetId, b.targetType)
      case Err(e) => Err(e)
      case Ok(s) => Ok(BookmarkWithContent(ToResponse(b), Some(s)))
  }

  /**
   * The caller's own bookmark comes back with the snapshot of its target;
   * when the target has no snapshot, its error is the error of the call.
   */
  lemma GetBookmarkFound(t: Tables, id: int, userId: int, k: nat)
    requires KeysUnique(t.bookmarks, BookmarkId)
    requires k < |t.bookmarks| && t.bookmarks[k].id == id && t.bookmarks[k].userId == userId
    ensures var b := t.bookmarks[k];
      var s := ContentSnapshot(t, b.targetId, b.targetType);
      && (s.Ok? ==> GetBookmark(t, id, userId) == Ok(BookmarkWithContent(ToResponse(b), Some(s.value))))
      && (s.Err? ==> GetBookmark(t, id, userId) == Err(s.error))
  {
    var found := FindOwned(t.bookmarks, id, userId);
    assert found.Some?;
    assert BookmarkId(t.bookmarks[found.value]) == BookmarkId(t.bookmarks[k]);
  }

  /**
   * `update_bookmark`: only the caller's own bookmark; a title of `None`
   * keeps the stored title, while the note is always replaced, so `None`
   * clears it.
   */
  function UpdateBookmarkSpec(t: Tables, id: int, userId: int, title: Option<string>, note: Option<string>)
    : (out: (Tables, Result<BookmarkResponse, AppError>))
    ensures out.0 == t.(bookmarks := out.0.bookmarks)
    ensures (forall k | 0 <= k < |t.bookmarks| :: !(t.bookmarks[k].id == id && t.bookmarks[k].userId == userId))
      ==> out == (t, Err(BookmarkMissing))
  {
    match FindOwned(t.bookmarks, id, userId)
    case None => (t, Err(BookmarkMissing))
    case Some(k) =>
      var b := t.bookmarks[k];
      var b' := b.(title := if title.Some? then title.value else b.title, note := note);
      (t.(bookmarks := t.bookmarks[k := b']), Ok(ToResponse(b')))
  }

  /**
   * On the caller's own bookmark, the update rewrites only that row: its
   * title when one is given, and its note always.
   */
  lemma UpdateBookmarkFound(t: Tables, id: int, userId: int, title: Option<string>, note: Option<string>, k: nat)
    requires KeysUnique(t.bookmarks, BookmarkId)
    requires k < |t.bookmarks| && t.bookmarks[k].id == id && t.bookmarks[k].userId == userId
    ensures var out := UpdateBookmarkSpec(t, id, userId, title, note);
      var b := t.bookmarks[k];
      && out.0.bookmarks == t.bookmarks[k := b.(title := out.0.bookmarks[k].title, note := note)]
      && (title.Some? ==> out.0.bookmarks[k].title == title.value)
      && (title.None? ==> out.0.bookmarks[k].title == b.title)
      && out.1 == Ok(ToResponse(out.0.bookmarks[k]))
  {
    var found := FindOwned(t.bookmarks, id, userId);
    assert found.Some?;
    assert BookmarkId(t.bookmarks[found.value]) == BookmarkId(t.bookmarks[k]);
  }

  lemma UpdateBookmarkKeepsValid(t: Tables, id: int, userId: int, title: Option<string>, note: Option<string>)
    requires ValidTables(t)
    ensures ValidTables(UpdateBookmarkSpec(t, id, userId, title, note).0)
  {
    var out := UpdateBookmarkSpec(t, id, userId, title, note);
    RewriteKeepsTable(t.bookmarks, out.0.bookmarks, BookmarkId, t.nextBookmarkId);
  }

  method UpdateBookmark(db: Database, id: int, userId: int, title: Option<string>, note: Option<string>)
    returns (r: Result<BookmarkResponse, AppError>)
    requires db.Valid()
    modifies db
    ensures db.Valid()
    ensures db.T() == UpdateBookmarkSpec(old(db.T()), id, userId, title, note).0
    ensures r == UpdateBookmarkSpec(old(db.T()), id, userId, title, note).1
  {
    UpdateBookmarkKeepsValid(db.T(), id, userId, title, note);
    var found := FindOwned(db.bookmarks, id, userId);
    if found.None? {
      return Err(BookmarkMissing);
    }
    var bookmark := db.bookmarks[found.value];
    if title.Some? {
      bookmark := bookmark.(title := title.value);
    }
    bookmark := bookmark.(note := note);
    db.WriteBookmarks(db.bookmarks[found.value := bookmark], db.nextBookmarkId);
    r := Ok(ToResponse(bookmark));
  }

  /** The rows `delete_many` keeps: every row but those with that id and that user. */
  function Kept(id: int, userId: int): Bookmark -> bool {
    (b: Bookmark) => !(b.id == id && b.userId == userId)
  }

  /**
   * `delete_bookmark`: one `DELETE ... WHERE id = ? AND user_id = ?`; no
   * row affected means `NotFound`.
   */
  function DeleteBookmarkSpec(t: Tables, id: int, userId: int): (out: (Tables, Result<(), AppError>))
    ensures out.0 == t.(bookmarks := out.0.bookmarks)
    ensures forall b :: b in out.0.bookmarks <==> b in t.bookmarks && !(b.id == id && b.userId == userId)
    ensures out.1.Err? <==> forall k | 0 <= k < |t.bookmarks| :: !(t.bookmarks[k].id == id && t.bookmarks[k].userId == userId)
    ensures out.1.Err? ==> out.1 == Err(BookmarkMissing) && out.0 == t
  {
    var kept := Filter(t.bookmarks, Kept(id, userId));
    FilterLength(t.bookmarks, Kept(id, userId));
    CountFull(t.bookmarks, Kept(id, userId));
    if |kept| == |t.bookmarks| then
      assert forall b :: b in t.bookmarks ==> b in multiset(t.bookmarks);
      (t, Err(BookmarkMissing))
    else (t.(bookmarks := kept), Ok(()))
  }

  /** A successful delete removes exactly one row: ids are unique. */
  lemma DeleteBookmarkRemovesOne(t: Tables, id: int, userId: int)
    requires KeysUnique(t.bookmarks, BookmarkId)
    ensures var out := DeleteBookmarkSpec(t, id, userId);
      out.1.Ok? ==> |out.0.bookmarks| == |t.bookmarks| - 1
  {
    var out := DeleteBookmarkSpec(t, id, userId);
    if out.1.Ok? {
      var k := FindOwned(t.bookmarks, id, userId).value;
      FilterLength(t.bookmarks, Kept(id, userId));
      forall i | 0 <= i < |t.bookmarks| && i != k
        ensures Kept(id, userId)(t.bookmarks[i])
      {
        assert BookmarkId(t.bookmarks[i]) != BookmarkId(t.bookmarks[k]);
      }
      CountAllButOne(t.bookmarks, Kept(id, userId), k);
    }
  }

  lemma DeleteBookmarkKeepsValid(t: Tables, id: int, userId: int)
    requires ValidTables(t)
    ensures ValidTables(DeleteBookmarkSpec(t, id, userId).0)
  {
    FilterKeepsTable(t.bookmarks, Kept(id, userId), BookmarkId, t.nextBookmarkId);
  }

  method DeleteBookmark(db: Database, id: int, userId: int) returns (r: Result<(), AppError>)
    requires db.Valid()
    modifies db
    ensures db.Valid()
    ensures db.T() == DeleteBookmarkSpec(old(db.T()), id, userId).0
    ensures r == DeleteBookmarkSpec(old(db.T()), id, userId).1
  {
    DeleteBookmarkKeepsValid(db.T(), id, userId);
    var kept := Filter(db.bookmarks, Kept(id, userId));
    var rowsAffected := |db.bookmarks| - |kept|;
    if rowsAffected == 0 {
      return Err(BookmarkMissing);
    }
    db.WriteBookmarks(kept, db.nextBookmarkId);
    r := Ok(());
  }
}
