/**
 * `src-tauri/src/repository/question_repository.rs`: creating a question
 * with its tags, reading one back, and the paged, searchable, sortable list.
 */
module QuestionRepository {
  import opened Wrappers
  import opened Seqs
  import opened Strings
  import opened Store
  import opened AppErrors
  import opened VoteRepository
  import opened AnswerRepository

  /** What the question commands return for one question. */
  datatype QuestionResponse = QuestionResponse(
    id: int, title: string, content: string, userId: int, createdAt: int, updatedAt: int,
    viewCount: int, isClosed: bool, isAnswered: bool, tags: seq<string>,
    author: UserBrief, answerCount: int, voteCount: int)

  /** The tag is linked to the question by a row of `question_tags`. */
  predicate Linked(links: seq<QuestionTag>, questionId: int, g: Tag) {
    QuestionTag(questionId, g.id) in links
  }

  /**
   * `find_related(tags::Entity)` mapped to names: the names of the tags
   * linked to the question, in the order of the tags table.
   */
  function TagNames(tags: seq<Tag>, links: seq<QuestionTag>, questionId: int): (r: seq<string>)
    ensures forall n :: n in r <==> exists i | 0 <= i < |tags| :: tags[i].name == n && Linked(links, questionId, tags[i])
    decreases |tags|
  {
    if tags == [] then []
    else
      var init, last := tags[..|tags| - 1], tags[|tags| - 1];
      var r := TagNames(init, links, questionId) + (if Linked(links, questionId, last) then [last.name] else []);
      assert forall i | 0 <= i < |init| :: init[i] == tags[i];
      r
  }

  function TagNamesOf(t: Tables, questionId: int): seq<string> {
    TagNames(t.tags, t.questionTags, questionId)
  }

  /**
   * `transform_to_response`: the question with the given tag names, its
   * author's summary, its number of answers and its vote score.
   */
  function TransformQuestion(t: Tables, q: Question, tags: seq<string>): (r: Result<QuestionResponse, AppError>)
    ensures r.Err? <==> forall i | 0 <= i < |t.users| :: t.users[i].id != q.userId
    ensures r.Err? ==> r.error == AuthorMissing
  {
    match FindUser(t.users, q.userId)
    case None => Err(AuthorMissing)
    case Some(k) =>
      Ok(QuestionResponse(q.id, q.title, q.content, q.userId, q.createdAt, q.updatedAt,
                          q.viewCount, q.isClosed != 0, q.isAnswered != 0, tags, Brief(t.users[k]),
                          Count(t.answers, OfQuestion(q.id)), VoteScore(t.votes, q.id, "question")))
  }

  /**
   * A response copies the row, reports the flags as "not 0", embeds the
   * author's summary, counts the answers whose `question_id` is the
   * question's, and scores +1 for each "up" vote on the question and -1 for
   * each other vote on it.
   */
  lemma TransformQuestionFields(t: Tables, q: Question, tags: seq<string>, k: nat)
    requires UsersValid(t) && k < |t.users| && t.users[k].id == q.userId
    ensures var r := TransformQuestion(t, q, tags);
      && r.Ok?
      && (r.value.id, r.value.title, r.value.content, r.value.userId) == (q.id, q.title, q.content, q.userId)
      && (r.value.createdAt, r.value.updatedAt, r.value.viewCount) == (q.createdAt, q.updatedAt, q.viewCount)
      && (r.value.isClosed <==> q.isClosed != 0) && (r.value.isAnswered <==> q.isAnswered != 0)
      && r.value.tags == tags
      && r.value.author == Brief(t.users[k])
      && r.value.answerCount == |set i: nat | i < |t.answers| && t.answers[i].questionId == q.id|
      && r.value.voteCount == Count(t.votes, VotedOn(q.id, "question", "up")) - Count(t.votes, NotUpOn(q.id, "question"))
  {
    FindKeyUnique(t.users, UserId, k);
    CountIsCardinality(t.answers, OfQuestion(q.id));
    assert Matching(t.answers, OfQuestion(q.id)) == set i: nat | i < |t.answers| && t.answers[i].questionId == q.id;
  }

  /**
   * `get_question_by_id`: a read of the tables, so nothing changes; the
   * stored `view_count` is reported as it is.
   */
  function GetQuestionById(t: Tables, id: int): (r: Result<QuestionResponse, AppError>)
    requires TableValid(t.questions, QuestionId, t.nextQuestionId)
    ensures (forall i | 0 <= i < |t.questions| :: t.questions[i].id != id) ==> r == Err(QuestionMissing)
    ensures forall i | 0 <= i < |t.questions| && t.questions[i].id == id ::
      r == TransformQuestion(t, t.questions[i], TagNamesOf(t, id))
  {
    forall i | 0 <= i < |t.questions| && t.questions[i].id == id
      ensures FindQuestion(t.questions, id) == Some(i)
    {
      FindKeyUnique(t.questions, QuestionId, i);
    }
    match FindQuestion(t.questions, id)
    case None => Err(QuestionMissing)
    case Some(k) => TransformQuestion(t, t.questions[k], TagNamesOf(t, id))
  }

  /** The tags table, the links and the next tag id while `create_question` adds tags. */
  datatype TagState = TagState(tags: seq<Tag>, links: seq<QuestionTag>, nextTagId: int)

  /** The error of inserting a `question_tags` row whose key is already there. */
  const LinkExists: AppError := FromDbErr(UniqueViolation("question_tags.question_id, question_tags.tag_id"))

  /**
   * One round of the tag loop of `create_question`: the tag with that name,
   * or a new tag when there is none, then a link from the question to it.
   */
  function AddTag(s: TagState, questionId: int, name: string): (r: Result<TagState, AppError>)
    ensures r.Err? ==> r.error == LinkExists
  {
    var (tags, next, tagId) :=
      match FindKey(s.tags, TagName, name)
      case Some(k) => (s.tags, s.nextTagId, s.tags[k].id)
      case None => (s.tags + [Tag(s.nextTagId, name, None)], s.nextTagId + 1, s.nextTagId);
    if QuestionTag(questionId, tagId) in s.links then Err(LinkExists)
    else Ok(TagState(tags, s.links + [QuestionTag(questionId, tagId)], next))
  }

  /** The tag loop of `create_question` over the names, in order, up to the first failing insert. */
  function AddTags(s: TagState, questionId: int, names: seq<string>): (r: Result<TagState, AppError>)
    ensures r.Err? ==> r.error == LinkExists
    decreases |names|
  {
    if names == [] then Ok(s)
    else
      match AddTags(s, questionId, names[..|names| - 1])
      case Err(e) => Err(e)
      case Ok(s') => AddTag(s', questionId, names[|names| - 1])
  }

  /** The constraints on tags and links that `create_question` relies on and keeps. */
  predicate TagStateValid(s: TagState) {
    TableValid(s.tags, TagId, s.nextTagId) && KeysUnique(s.tags, TagName) && KeysUnique(s.links, LinkKey)
  }

  /**
   * The links of the question match the names: every link of the question
   * leads to a tag named by one of the names, and every name has a tag
   * linked to the question.
   */
  predicate Covers(s: TagState, questionId: int, names: seq<string>) {
    && (forall m | 0 <= m < |s.links| && s.links[m].questionId == questionId ::
          exists k | 0 <= k < |s.tags| :: s.tags[k].id == s.links[m].tagId && s.tags[k].name in names)
    && (forall i | 0 <= i < |names| ::
          exists k | 0 <= k < |s.tags| :: s.tags[k].name == names[i] && QuestionTag(questionId, s.tags[k].id) in s.links)
  }

  /** A link of the question to an existing tag means the tag's name was seen. */
  lemma LinkedMeansSeen(s: TagState, questionId: int, names: seq<string>, k: nat)
    requires KeysUnique(s.tags, TagId) && Covers(s, questionId, names)
    requires k < |s.tags| && QuestionTag(questionId, s.tags[k].id) in s.links
    ensures s.tags[k].name in names
  {
    var link := QuestionTag(questionId, s.tags[k].id);
    var m :| 0 <= m < |s.links| && s.links[m] == link;
    var k2 :| 0 <= k2 < |s.tags| && s.tags[k2].id == link.tagId && s.tags[k2].name in names;
    assert TagId(s.tags[k2]) == TagId(s.tags[k]);
  }

  /** A name seen before has its tag linked to the question. */
  lemma SeenMeansLinked(s: TagState, questionId: int, names: seq<string>, k: nat)
    requires KeysUnique(s.tags, TagName) && Covers(s, questionId, names)
    requires k < |s.tags| && s.tags[k].name in names
    ensures QuestionTag(questionId, s.tags[k].id) in s.links
  {
    var i :| 0 <= i < |names| && names[i] == s.tags[k].name;
    var k2 :| 0 <= k2 < |s.tags| && s.tags[k2].name == names[i] && QuestionTag(questionId, s.tags[k2].id) in s.links;
    assert TagName(s.tags[k2]) == TagName(s.tags[k]);
  }

  /** Linking the question to the tag of a new name keeps the links matching the names. */
  lemma LinkKeepsCovers(s: TagState, questionId: int, names: seq<string>, k: nat)
    requires Covers(s, questionId, names) && k < |s.tags|
    ensures Covers(s.(links := s.links + [QuestionTag(questionId, s.tags[k].id)]), questionId, names + [s.tags[k].name])
  {
  }

  /** The round for a name whose tag exists: it fails exactly when the name was seen before. */
  lemma AddExistingTag(s: TagState, questionId: int, names: seq<string>, name: string, k: nat)
    requires TagStateValid(s) && Covers(s, questionId, names)
    requires k < |s.tags| && s.tags[k].name == name
    ensures var r := AddTag(s, questionId, name);
      && (r.Ok? <==> name !in names)
      && (r.Ok? ==> && TagStateValid(r.value) && Covers(r.value, questionId, names + [name])
                    && r.value.tags == s.tags && s.links <= r.value.links)
  {
    FindKeyUnique(s.tags, TagName, k);
    var link := QuestionTag(questionId, s.tags[k].id);
    assert AddTag(s, questionId, name) ==
      if link in s.links then Err(LinkExists) else Ok(s.(links := s.links + [link]));
    if link in s.links {
      LinkedMeansSeen(s, questionId, names, k);
    }
    if name in names {
      SeenMeansLinked(s, questionId, names, k);
    }
    if link !in s.links {
      AppendKeepsUnique(s.links, LinkKey, link);
      LinkKeepsCovers(s, questionId, names, k);
    }
  }

  /** The round for a name without a tag: it inserts the tag and the link, and cannot fail. */
  lemma AddNewTag(s: TagState, questionId: int, names: seq<string>, name: string)
    requires TagStateValid(s) && Covers(s, questionId, names)
    requires forall k | 0 <= k < |s.tags| :: s.tags[k].name != name
    ensures var r := AddTag(s, questionId, name);
      && name !in names && r.Ok?
      && TagStateValid(r.value) && Covers(r.value, questionId, names + [name])
      && r.value.tags == s.tags + [Tag(s.nextTagId, name, None)] && s.links <= r.value.links
  {
    var x := Tag(s.nextTagId, name, None);
    var link := QuestionTag(questionId, s.nextTagId);
    if link in s.links {
      assert false;
    }
    var s' := TagState(s.tags + [x], s.links + [link], s.nextTagId + 1);
    assert AddTag(s, questionId, name) == Ok(s');
    InsertKeepsTable(s.tags, TagId, s.nextTagId, x);
    AppendKeepsUnique(s.tags, TagName, x);
    AppendKeepsUnique(s.links, LinkKey, link);
    assert s'.tags[|s.tags|] == x && s'.links[|s.links|] == link;
    assert forall k | 0 <= k < |s.tags| :: s'.tags[k] == s.tags[k];
    assert forall m | 0 <= m < |s.links| :: s'.links[m] == s.links[m];
  }

  /** The tags table only grew, by tags without a description named in `names`. */
  predicate Grown(before: seq<Tag>, after: seq<Tag>, names: seq<string>) {
    && before <= after
    && forall i | |before| <= i < |after| :: after[i].description.None? && after[i].name in names
  }

  lemma GrownByNothing(before: seq<Tag>, after: seq<Tag>, names: seq<string>, name: string)
    requires Grown(before, after, names)
    ensures Grown(before, after, names + [name])
  {
    assert forall n | n in names :: n in names + [name];
  }

  lemma GrownByOne(before: seq<Tag>, after: seq<Tag>, names: seq<string>, x: Tag)
    requires Grown(before, after, names) && x.description.None?
    ensures Grown(before, after + [x], names + [x.name])
  {
    assert forall n | n in names :: n in names + [x.name];
    assert (names + [x.name])[|names|] == x.name;
    assert forall i | |before| <= i < |after| :: (after + [x])[i] == after[i];
  }

  /** The last round of the tag loop, after the rounds for `prefix` succeeded. */
  lemma AddTagsLast(s0: TagState, s: TagState, questionId: int, prefix: seq<string>, name: string)
    requires TagStateValid(s) && Covers(s, questionId, prefix)
    requires Grown(s0.tags, s.tags, prefix) && s0.links <= s.links
    ensures var r := AddTag(s, questionId, name);
      && (r.Ok? <==> name !in prefix)
      && (r.Ok? ==> && TagStateValid(r.value) && Covers(r.value, questionId, prefix + [name])
                    && Grown(s0.tags, r.value.tags, prefix + [name]) && s0.links <= r.value.links)
  {
    match FindKey(s.tags, TagName, name)
    case Some(k) =>
      AddExistingTag(s, questionId, prefix, name, k);
      GrownByNothing(s0.tags, s.tags, prefix, name);
    case None =>
      AddNewTag(s, questionId, prefix, name);
      GrownByOne(s0.tags, s.tags, prefix, Tag(s.nextTagId, name, None));
  }

  /**
   * The tag loop of `create_question` succeeds exactly when no name repeats
   * (a repeated name would insert the same `question_tags` key twice). When
   * it succeeds, the question is linked to the tag of every name and to no
   * other tag, and the only tags added are new names, without a description.
   */
  lemma {:induction false} AddTagsCorrect(s0: TagState, questionId: int, names: seq<string>)
    requires TagStateValid(s0)
    requires forall m | 0 <= m < |s0.links| :: s0.links[m].questionId != questionId
    ensures var r := AddTags(s0, questionId, names);
      && (r.Ok? <==> Distinct(names))
      && (r.Ok? ==> && TagStateValid(r.value) && Covers(r.value, questionId, names)
                    && Grown(s0.tags, r.value.tags, names) && s0.links <= r.value.links)
    decreases |names|
  {
    if names != [] {
      var prefix, name := names[..|names| - 1], names[|names| - 1];
      assert names == prefix + [name];
      AddTagsCorrect(s0, questionId, prefix);
      DistinctSnoc(prefix, name);
      var before := AddTags(s0, questionId, prefix);
      if before.Ok? {
        AddTagsLast(s0, before.value, questionId, prefix, name);
      }
    }
  }

  /** A failed round ends the tag loop: the whole loop fails. */
  lemma {:induction false} AddTagsFailurePersists(s0: TagState, questionId: int, names: seq<string>, n: nat)
    requires n <= |names| && AddTags(s0, questionId, names[..n]).Err?
    ensures AddTags(s0, questionId, names) == Err(LinkExists)
    decreases |names| - n
  {
    if n < |names| {
      assert names[..n + 1][..n] == names[..n];
      AddTagsFailurePersists(s0, questionId, names, n + 1);
    } else {
      assert names[..n] == names;
    }
  }

  /** The row `create_question` inserts: not viewed, not closed, not answered. */
  function NewQuestion(t: Tables, userId: int, title: string, content: string, now: int): Question {
    Question(t.nextQuestionId, title, content, userId, now, now, 0, 0, 0)
  }

  function TagsOf(t: Tables): TagState {
    TagState(t.tags, t.questionTags, t.nextTagId)
  }

  /**
   * `create_question`: in one transaction, the question row, then for each
   * name the tag (found or inserted) and the link; after the commit, the
   * question is read back. A failed insert rolls everything back; a failed
   * read back leaves the committed rows.
   */
  function CreateQuestionSpec(t: Tables, userId: int, title: string, content: string, names: seq<string>, now: int)
    : (out: (Tables, Result<QuestionResponse, AppError>))
    requires TableValid(t.questions, QuestionId, t.nextQuestionId)
    ensures out.0 == t.(questions := out.0.questions, nextQuestionId := out.0.nextQuestionId,
                        tags := out.0.tags, questionTags := out.0.questionTags, nextTagId := out.0.nextTagId)
    ensures AddTags(TagsOf(t), t.nextQuestionId, names).Err? ==> out == (t, Err(LinkExists))
    ensures AddTags(TagsOf(t), t.nextQuestionId, names).Ok? ==>
      && out.0.questions == t.questions + [NewQuestion(t, userId, title, content, now)]
      && out.0.nextQuestionId == t.nextQuestionId + 1
      && TagsOf(out.0) == AddTags(TagsOf(t), t.nextQuestionId, names).value
      && (out.1.Err? <==> forall i | 0 <= i < |t.users| :: t.users[i].id != userId)
    ensures out.1.Ok? ==>
      && out.1.value.id == t.nextQuestionId
      && (out.1.value.title, out.1.value.content, out.1.value.userId) == (title, content, userId)
      && out.1.value.viewCount == 0 && !out.1.value.isClosed && !out.1.value.isAnswered
      && out.1.value.tags == TagNamesOf(out.0, t.nextQuestionId)
  {
    var q := NewQuestion(t, userId, title, content, now);
    match AddTags(TagsOf(t), q.id, names)
    case Err(e) => (t, Err(e))
    case Ok(s) =>
      var t' := t.(questions := t.questions + [q], nextQuestionId := t.nextQuestionId + 1,
                   tags := s.tags, questionTags := s.links, nextTagId := s.nextTagId);
      InsertKeepsTable(t.questions, QuestionId, t.nextQuestionId, q);
      assert t'.questions[|t.questions|] == q;
      (t', GetQuestionById(t', q.id))
  }

  /** The tag loop adds only links of the question. */
  lemma {:induction false} AddTagsLinksQuestion(s0: TagState, questionId: int, names: seq<string>)
    ensures var r := AddTags(s0, questionId, names);
      r.Ok? ==> (s0.links <= r.value.links
                 && forall m | |s0.links| <= m < |r.value.links| :: r.value.links[m].questionId == questionId)
    decreases |names|
  {
    if names != [] {
      AddTagsLinksQuestion(s0, questionId, names[..|names| - 1]);
    }
  }

  /** Every link leads to a tag id already handed out. */
  predicate LinksBelow(s: TagState) {
    forall m | 0 <= m < |s.links| :: s.links[m].tagId < s.nextTagId
  }

  /** The tag loop links only to tags it found or inserted. */
  lemma {:induction false} AddTagsKeepsLinksBelow(s0: TagState, questionId: int, names: seq<string>)
    requires TableValid(s0.tags, TagId, s0.nextTagId) && LinksBelow(s0)
    ensures var r := AddTags(s0, questionId, names);
      r.Ok? ==> TableValid(r.value.tags, TagId, r.value.nextTagId) && LinksBelow(r.value)
    decreases |names|
  {
    if names != [] {
      var name := names[|names| - 1];
      AddTagsKeepsLinksBelow(s0, questionId, names[..|names| - 1]);
      var before := AddTags(s0, questionId, names[..|names| - 1]);
      if before.Ok? {
        var s := before.value;
        if FindKey(s.tags, TagName, name).None? {
          InsertKeepsTable(s.tags, TagId, s.nextTagId, Tag(s.nextTagId, name, None));
        }
      }
    }
  }

  /** `create_question` keeps every constraint of the schema. */
  lemma CreateQuestionKeepsValid(t: Tables, userId: int, title: string, content: string, names: seq<string>, now: int)
    requires ValidTables(t)
    ensures ValidTables(CreateQuestionSpec(t, userId, title, content, names, now).0)
  {
    var out := CreateQuestionSpec(t, userId, title, content, names, now);
    var r := AddTags(TagsOf(t), t.nextQuestionId, names);
    if r.Ok? {
      AddTagsCorrect(TagsOf(t), t.nextQuestionId, names);
      AddTagsLinksQuestion(TagsOf(t), t.nextQuestionId, names);
      AddTagsKeepsLinksBelow(TagsOf(t), t.nextQuestionId, names);
      InsertKeepsTable(t.questions, QuestionId, t.nextQuestionId, NewQuestion(t, userId, title, content, now));
      forall m | 0 <= m < |out.0.questionTags| ensures out.0.questionTags[m].questionId < out.0.nextQuestionId {
        if m < |t.questionTags| {
          assert out.0.questionTags[m] == t.questionTags[m];
        }
      }
    }
  }

  /**
   * `create_question` commits exactly when no tag name repeats, and the
   * question it returns carries exactly the given tag names.
   */
  lemma CreatedQuestionHasItsTags(t: Tables, userId: int, title: string, content: string, names: seq<string>, now: int)
    requires ValidTables(t)
    ensures AddTags(TagsOf(t), t.nextQuestionId, names).Ok? <==> Distinct(names)
    ensures var out := CreateQuestionSpec(t, userId, title, content, names, now);
      out.1.Ok? ==> forall n :: n in out.1.value.tags <==> n in names
  {
    var qid := t.nextQuestionId;
    AddTagsCorrect(TagsOf(t), qid, names);
    var out := CreateQuestionSpec(t, userId, title, content, names, now);
    if out.1.Ok? {
      var s := AddTags(TagsOf(t), qid, names).value;
      assert out.1.value.tags == TagNames(s.tags, s.links, qid);
      forall n ensures n in out.1.value.tags <==> n in names {
        if n in names {
          var i :| 0 <= i < |names| && names[i] == n;
          var k :| 0 <= k < |s.tags| && s.tags[k].name == names[i] && QuestionTag(qid, s.tags[k].id) in s.links;
          assert Linked(s.links, qid, s.tags[k]);
        }
        if n in out.1.value.tags {
          var k :| 0 <= k < |s.tags| && s.tags[k].name == n && Linked(s.links, qid, s.tags[k]);
          LinkedMeansSeen(s, qid, names, k);
        }
      }
    }
  }

  /**
   * A committed `create_question` inserts a tag row only for a name no tag
   * had; the new rows have no description, and the rows already there stay.
   */
  lemma CreateQuestionTagRows(t: Tables, userId: int, title: string, content: string, names: seq<string>, now: int)
    requires ValidTables(t)
    ensures var out := CreateQuestionSpec(t, userId, title, content, names, now);
      AddTags(TagsOf(t), t.nextQuestionId, names).Ok? ==>
        && t.tags <= out.0.tags
        && forall i | |t.tags| <= i < |out.0.tags| ::
             && out.0.tags[i].description.None? && out.0.tags[i].name in names
             && forall j | 0 <= j < |t.tags| :: t.tags[j].name != out.0.tags[i].name
  {
    var out := CreateQuestionSpec(t, userId, title, content, names, now);
    AddTagsCorrect(TagsOf(t), t.nextQuestionId, names);
    if AddTags(TagsOf(t), t.nextQuestionId, names).Ok? {
      forall i, j | |t.tags| <= i < |out.0.tags| && 0 <= j < |t.tags| ensures t.tags[j].name != out.0.tags[i].name {
        assert out.0.tags[j] == t.tags[j];
        assert TagName(out.0.tags[j]) != TagName(out.0.tags[i]);
      }
    }
  }

  /** One round of the tag loop: find or insert the tag, then insert the link. */
  method TagRound(state: TagState, questionId: int, name: string) returns (r: Result<TagState, AppError>)
    ensures r == AddTag(state, questionId, name)
  {
    var tagId;
    var next := state;
    var found := FindKey(state.tags, TagName, name);
    if found.Some? {
      tagId := state.tags[found.value].id;
    } else {
      tagId := state.nextTagId;
      next := state.(tags := state.tags + [Tag(state.nextTagId, name, None)], nextTagId := state.nextTagId + 1);
    }
    if QuestionTag(questionId, tagId) in state.links {
      return Err(LinkExists);
    }
    r := Ok(next.(links := state.links + [QuestionTag(questionId, tagId)]));
  }

  /** The tag loop of `create_question`, stopping at the first failed insert. */
  method TagLoop(s0: TagState, questionId: int, names: seq<string>) returns (r: Result<TagState, AppError>)
    ensures r == AddTags(s0, questionId, names)
  {
    var state := s0;
    var i := 0;
    while i < |names|
      invariant 0 <= i <= |names|
      invariant AddTags(s0, questionId, names[..i]) == Ok(state)
    {
      assert names[..i + 1][..i] == names[..i];
      var next := TagRound(state, questionId, names[i]);
      if next.Err? {
        AddTagsFailurePersists(s0, questionId, names, i + 1);
        return next;
      }
      state := next.value;
      i := i + 1;
    }
    assert names[..i] == names;
    r := Ok(state);
  }

  /**
   * `create_question`: the question row, then the tag loop, then the commit
   * and the read back.
   */
  method CreateQuestion(db: Database, userId: int, title: string, content: string, names: seq<string>, now: int)
    returns (r: Result<QuestionResponse, AppError>)
    requires db.Valid()
    modifies db
    ensures db.Valid()
    ensures db.T() == CreateQuestionSpec(old(db.T()), userId, title, content, names, now).0
    ensures r == CreateQuestionSpec(old(db.T()), userId, title, content, names, now).1
  {
    CreateQuestionKeepsValid(db.T(), userId, title, content, names, now);
    var question := NewQuestion(db.T(), userId, title, content, now);
    var tags := TagLoop(TagsOf(db.T()), question.id, names);
    if tags.Err? {
      return Err(tags.error);
    }
    db.WriteQuestions(db.questions + [question], db.nextQuestionId + 1);
    db.WriteTags(tags.value.tags, tags.value.links, tags.value.nextTagId);
    r := GetQuestionById(db.T(), question.id);
  }

  /** The search condition of `list_questions`: no term, or the term occurs in the title or in the content. */
  predicate Keeps(search: Option<string>, q: Question) {
    search.None? || Contains(q.title, search.value) || Contains(q.content, search.value)
  }

  /** The rows the optional search keeps, in table order. */
  function Searched(questions: seq<Question>, search: Option<string>): (r: seq<Question>)
    ensures forall q :: multiset(r)[q] == (if Keeps(search, q) then multiset(questions)[q] else 0)
  {
    Filter(questions, (q: Question) => Keeps(search, q))
  }

  function NewestFirst(): (Question, Question) -> bool {
    (a: Question, b: Question) => a.createdAt >= b.createdAt
  }

  function OldestFirst(): (Question, Question) -> bool {
    (a: Question, b: Question) => a.createdAt <= b.createdAt
  }

  function MostViewedFirst(): (Question, Question) -> bool {
    (a: Question, b: Question) => a.viewCount >= b.viewCount
  }

  /** The `ORDER BY` for `sort_by`: "oldest", "most_viewed", and newest first for anything else. */
  function OrderOf(sortBy: Option<string>): (Question, Question) -> bool {
    if sortBy == Some("oldest") then OldestFirst()
    else if sortBy == Some("most_viewed") then MostViewedFirst()
    else NewestFirst()
  }

  lemma OrderOfOrders(sortBy: Option<string>)
    ensures Total(OrderOf(sortBy)) && Transitive(OrderOf(sortBy))
  {
  }

  /** The searched rows in the requested order. */
  function Ordered(questions: seq<Question>, sortBy: Option<string>, search: Option<string>): (r: seq<Question>)
    ensures SortedBy(r, OrderOf(sortBy))
    ensures multiset(r) == multiset(Searched(questions, search))
  {
    OrderOfOrders(sortBy);
    SortBy(Searched(questions, search), OrderOf(sortBy))
  }

  /** The `OFFSET` of page `page` (pages count from 1). */
  function Offset(page: nat, perPage: nat): nat
    requires page >= 1
  {
    (page - 1) * perPage
  }

  /** The query of `list_questions`: search, order, then `OFFSET (page - 1) * per_page LIMIT per_page`. */
  function QueryRows(questions: seq<Question>, page: nat, perPage: nat, sortBy: Option<string>, search: Option<string>)
    : seq<Question>
    requires page >= 1
  {
    Page(Ordered(questions, sortBy, search), Offset(page, perPage), perPage)
  }

  /**
   * The page `list_questions` reads: at most `per_page` rows, the slice of
   * the ordered search result that starts at `(page - 1) * per_page`, empty
   * past the end; each row is a stored question that matches the search.
   */
  lemma QueryRowsArePage(questions: seq<Question>, page: nat, perPage: nat, sortBy: Option<string>, search: Option<string>)
    requires page >= 1
    ensures var r := QueryRows(questions, page, perPage, sortBy, search);
      var all := Ordered(questions, sortBy, search);
      && |r| <= perPage
      && (Offset(page, perPage) >= |all| ==> r == [])
      && (forall i | 0 <= i < |r| :: Offset(page, perPage) + i < |all| && r[i] == all[Offset(page, perPage) + i])
      && (forall i | 0 <= i < |r| :: r[i] in questions)
      && (forall i | 0 <= i < |r| :: Keeps(search, r[i]))
  {
    var r := QueryRows(questions, page, perPage, sortBy, search);
    var all := Ordered(questions, sortBy, search);
    var found := Searched(questions, search);
    forall i | 0 <= i < |r|
      ensures r[i] in questions
      ensures Keeps(search, r[i])
    {
      var q := r[i];
      assert q == all[Offset(page, perPage) + i];
      assert q in multiset(all);
      assert multiset(found)[q] > 0;
    }
  }

  /** The rows of a page come in the order `sort_by` asks for. */
  lemma QueryRowsOrdered(questions: seq<Question>, page: nat, perPage: nat, sortBy: Option<string>, search: Option<string>)
    requires page >= 1
    ensures var r := QueryRows(questions, page, perPage, sortBy, search);
      forall i, j | 0 <= i < j < |r| ::
        if sortBy == Some("oldest") then r[i].createdAt <= r[j].createdAt
        else if sortBy == Some("most_viewed") then r[i].viewCount >= r[j].viewCount
        else r[i].createdAt >= r[j].createdAt
  {
    PageSorted(Ordered(questions, sortBy, search), Offset(page, perPage), perPage, OrderOf(sortBy));
  }

  /** `transform_to_response` of a listed question, with the names of its tags. */
  function QuestionResponder(t: Tables): Question -> Result<QuestionResponse, AppError> {
    (q: Question) => TransformQuestion(t, q, TagNamesOf(t, q.id))
  }

  /** The loop of `list_questions` over the rows of its query. */
  method CollectQuestionResponses(t: Tables, rows: seq<Question>) returns (r: Result<seq<QuestionResponse>, AppError>)
    ensures r == MapResult(rows, QuestionResponder(t))
  {
    var responses: seq<QuestionResponse> := [];
    var i := 0;
    while i < |rows|
      invariant 0 <= i <= |rows|
      invariant MapResult(rows[..i], QuestionResponder(t)) == Ok(responses)
    {
      var response := TransformQuestion(t, rows[i], TagNamesOf(t, rows[i].id));
      if response.Err? {
        MapResultStops(rows, QuestionResponder(t), i, |rows|);
        assert rows[..|rows|] == rows;
        return Err(response.error);
      }
      assert rows[..i + 1][..i] == rows[..i];
      responses := responses + [response.value];
      i := i + 1;
    }
    assert rows[..i] == rows;
    r := Ok(responses);
  }

  /**
   * `list_questions`: the responses for one page of the query. The `tag`
   * argument is accepted and not used: the result does not depend on it.
   */
  method ListQuestions(db: Database, page: nat, perPage: nat, sortBy: Option<string>, tag: Option<string>,
                       search: Option<string>) returns (r: Result<seq<QuestionResponse>, AppError>)
    requires page >= 1
    ensures r == MapResult(QueryRows(db.questions, page, perPage, sortBy, search), QuestionResponder(db.T()))
    ensures r.Err? ==> r.error == AuthorMissing
  {
    var rows := QueryRows(db.questions, page, perPage, sortBy, search);
    r := CollectQuestionResponses(db.T(), rows);
  }
}
