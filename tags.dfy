/**
 * `src-tauri/src/repository/tag_repository.rs`: creating a tag, reading one
 * back, and listing or searching the tags by name, each with the number of
 * questions linked to it.
 */
module TagRepository {
  import opened Wrappers
  import opened Seqs
  import opened Strings
  import opened Store
  import opened AppErrors

  /** What the tag commands return for one tag. */
  datatype TagResponse = TagResponse(id: int, name: string, description: Option<string>, questionCount: int)

  /** The rows of `question_tags` that link to the tag. */
  function ToTag(tagId: int): QuestionTag -> bool {
    (l: QuestionTag) => l.tagId == tagId
  }

  /** The response for a tag row: the row and its number of links. */
  function TagToResponse(links: seq<QuestionTag>, g: Tag): TagResponse {
    TagResponse(g.id, g.name, g.description, Count(links, ToTag(g.id)))
  }

  /**
   * A response copies the tag's id, name and description, and its
   * `question_count` is the number of `question_tags` rows with its id.
   */
  lemma QuestionCountIsLinks(links: seq<QuestionTag>, g: Tag)
    ensures var r := TagToResponse(links, g);
      && (r.id, r.name, r.description) == (g.id, g.name, g.description)
      && r.questionCount == |set m: nat | m < |links| && links[m].tagId == g.id|
  {
    CountIsCardinality(links, ToTag(g.id));
    assert Matching(links, ToTag(g.id)) == set m: nat | m < |links| && links[m].tagId == g.id;
  }

  const TagMissing: AppError := NotFound("Tag not found")

  /** `get_tag_by_id`. */
  function GetTagById(t: Tables, id: int): (r: Result<TagResponse, AppError>)
    ensures r.Err? <==> forall k | 0 <= k < |t.tags| :: t.tags[k].id != id
    ensures r.Err? ==> r.error == TagMissing
  {
    match FindKey(t.tags, TagId, id)
    case None => Err(TagMissing)
    case Some(k) => Ok(TagToResponse(t.questionTags, t.tags[k]))
  }

  /** A stored tag is found by its id, with its count of links. */
  lemma GetTagByIdFinds(t: Tables, k: nat)
    requires KeysUnique(t.tags, TagId) && k < |t.tags|
    ensures GetTagById(t, t.tags[k].id) == Ok(TagToResponse(t.questionTags, t.tags[k]))
  {
    FindKeyUnique(t.tags, TagId, k);
  }

  /** The error of inserting a tag whose name is taken: `tags.name` is `UNIQUE`. */
  const TagNameTaken: AppError := FromDbErr(UniqueViolation("tags.name"))

  /** `create_tag`: the insert, then the read back of the new row. */
  function CreateTagSpec(t: Tables, name: string, description: Option<string>)
    : (out: (Tables, Result<TagResponse, AppError>))
    requires TableValid(t.tags, TagId, t.nextTagId)
    ensures out.0 == t.(tags := out.0.tags, nextTagId := out.0.nextTagId)
    ensures (exists k | 0 <= k < |t.tags| :: t.tags[k].name == name) ==> out == (t, Err(TagNameTaken))
    ensures (forall k | 0 <= k < |t.tags| :: t.tags[k].name != name) ==>
      && out.0.tags == t.tags + [Tag(t.nextTagId, name, description)]
      && out.0.nextTagId == t.nextTagId + 1
      && out.1.Ok?
      && (out.1.value.id, out.1.value.name, out.1.value.description) == (t.nextTagId, name, description)
  {
    match FindKey(t.tags, TagName, name)
    case Some(_) => (t, Err(TagNameTaken))
    case None =>
      var g := Tag(t.nextTagId, name, description);
      var t' := t.(tags := t.tags + [g], nextTagId := t.nextTagId + 1);
      InsertKeepsTable(t.tags, TagId, t.nextTagId, g);
      FindKeyUnique(t'.tags, TagId, |t.tags|);
      (t', GetTagById(t', g.id))
  }

  lemma CreateTagKeepsValid(t: Tables, name: string, description: Option<string>)
    requires ValidTables(t)
    ensures ValidTables(CreateTagSpec(t, name, description).0)
  {
    if forall k | 0 <= k < |t.tags| :: t.tags[k].name != name {
      var g := Tag(t.nextTagId, name, description);
      InsertKeepsTable(t.tags, TagId, t.nextTagId, g);
      AppendKeepsUnique(t.tags, TagName, g);
    }
  }

  /** No question is linked to a tag just created. */
  lemma CreatedTagHasNoQuestions(t: Tables, name: string, description: Option<string>)
    requires ValidTables(t)
    ensures var out := CreateTagSpec(t, name, description);
      out.1.Ok? ==> out.1.value.questionCount == 0
  {
    var out := CreateTagSpec(t, name, description);
    if out.1.Ok? {
      FindKeyUnique(out.0.tags, TagId, |t.tags|);
      CountNone(t.questionTags, ToTag(t.nextTagId));
    }
  }

  method CreateTag(db: Database, name: string, description: Option<string>) returns (r: Result<TagResponse, AppError>)
    requires db.Valid()
    modifies db
    ensures db.Valid()
    ensures db.T() == CreateTagSpec(old(db.T()), name, description).0
    ensures r == CreateTagSpec(old(db.T()), name, description).1
  {
    CreateTagKeepsValid(db.T(), name, description);
    if FindKey(db.tags, TagName, name).Some? {
      return Err(TagNameTaken);
    }
    var id := db.nextTagId;
    db.WriteTags(db.tags + [Tag(id, name, description)], db.questionTags, id + 1);
    r := GetTagById(db.T(), id);
  }

  /** `ORDER BY name ASC`: byte-wise comparison of the names. */
  function ByName(): (Tag, Tag) -> bool {
    (a: Tag, b: Tag) => LexLe(a.name, b.name)
  }

  lemma ByNameOrders()
    ensures Total(ByName()) && Transitive(ByName())
  {
    forall a: Tag, b: Tag
      ensures LexLe(a.name, b.name) || LexLe(b.name, a.name)
    {
      LexLeTotal(a.name, b.name);
    }
    forall a: Tag, b: Tag, c: Tag | LexLe(a.name, b.name) && LexLe(b.name, c.name)
      ensures LexLe(a.name, c.name)
    {
      LexLeTransitive(a.name, b.name, c.name);
    }
  }

  /** The rows of `list_tags`: every tag, ordered by name. */
  function SortedTags(tags: seq<Tag>): (r: seq<Tag>)
    ensures SortedBy(r, ByName())
    ensures multiset(r) == multiset(tags)
  {
    ByNameOrders();
    SortBy(tags, ByName())
  }

  /** The search condition of `search_tags`: the name contains the query. */
  predicate NameHas(g: Tag, query: string) {
    Contains(g.name, query)
  }

  function Matches(query: string): Tag -> bool {
    (g: Tag) => NameHas(g, query)
  }

  /** The rows of `search_tags`: the tags whose name contains the query, ordered by name. */
  function SearchRows(tags: seq<Tag>, query: string): seq<Tag> {
    SortedTags(Filter(tags, Matches(query)))
  }

  /** Under unique names, no two distinct tags tie in the name order. */
  lemma NamesBreakTies(tags: seq<Tag>, s: seq<Tag>)
    requires KeysUnique(tags, TagName)
    requires forall i | 0 <= i < |s| :: s[i] in tags
    ensures AntisymmetricOn(s, ByName())
  {
    forall i, j | 0 <= i < |s| && 0 <= j < |s| && LexLe(s[i].name, s[j].name) && LexLe(s[j].name, s[i].name)
      ensures s[i] == s[j]
    {
      LexLeAntisymmetric(s[i].name, s[j].name);
      var ki :| 0 <= ki < |tags| && tags[ki] == s[i];
      var kj :| 0 <= kj < |tags| && tags[kj] == s[j];
      assert TagName(tags[ki]) == TagName(tags[kj]);
    }
  }

  /**
   * `search_tags(q)` is `list_tags` with only the tags whose name contains
   * `q`: the same rows in the same order, a subsequence of the list.
   */
  lemma SearchIsFilteredList(t: Tables, query: string)
    requires KeysUnique(t.tags, TagName)
    ensures SearchRows(t.tags, query) == Filter(SortedTags(t.tags), Matches(query))
  {
    var all := SortedTags(t.tags);
    var a := Filter(all, Matches(query));
    var b := SearchRows(t.tags, query);
    FilterKeepsSorted(all, Matches(query), ByName());
    assert multiset(a) == multiset(b);
    forall i | 0 <= i < |a|
      ensures a[i] in t.tags
    {
      assert a[i] in multiset(a);
      assert a[i] in multiset(all);
    }
    NamesBreakTies(t.tags, a);
    SortedUnique(a, b, ByName());
  }

  /**
   * `search_tags(q)` returns exactly the stored tags whose name contains
   * `q`, each once, in ascending order of name.
   */
  lemma SearchTagsExact(t: Tables, query: string)
    requires KeysUnique(t.tags, TagName)
    ensures var r := SearchRows(t.tags, query);
      && (forall k | 0 <= k < |t.tags| :: t.tags[k] in r <==> Contains(t.tags[k].name, query))
      && (forall i | 0 <= i < |r| :: r[i] in t.tags && Contains(r[i].name, query))
      && (forall i, j | 0 <= i < j < |r| :: LexLe(r[i].name, r[j].name) && r[i].name != r[j].name)
  {
    var r := SearchRows(t.tags, query);
    var f := Filter(t.tags, Matches(query));
    forall k | 0 <= k < |t.tags|
      ensures t.tags[k] in r <==> Contains(t.tags[k].name, query)
    {
      assert t.tags[k] in multiset(t.tags);
      assert t.tags[k] in r <==> t.tags[k] in multiset(r);
    }
    SearchRowsStored(t.tags, query);
    DistinctByName(t.tags, r);
  }

  /** Every row of the search is a stored tag whose name contains the query. */
  lemma SearchRowsStored(tags: seq<Tag>, query: string)
    ensures var r := SearchRows(tags, query);
      forall i | 0 <= i < |r| :: r[i] in tags && NameHas(r[i], query)
  {
    var r := SearchRows(tags, query);
    var f := Filter(tags, Matches(query));
    forall i | 0 <= i < |r|
      ensures r[i] in tags && NameHas(r[i], query)
    {
      assert r[i] in multiset(r);
      assert multiset(r)[r[i]] == multiset(f)[r[i]];
    }
  }

  /** A sorted arrangement of some of the tags has strictly ascending names. */
  lemma DistinctByName(tags: seq<Tag>, r: seq<Tag>)
    requires KeysUnique(tags, TagName) && SortedBy(r, ByName())
    requires forall x :: multiset(r)[x] <= multiset(tags)[x]
    ensures forall i, j | 0 <= i < j < |r| :: LexLe(r[i].name, r[j].name) && r[i].name != r[j].name
  {
    assert Distinct(tags);
    DistinctMultiset(tags);
    DistinctMultiset(r);
    forall i, j | 0 <= i < j < |r|
      ensures r[i].name != r[j].name
    {
      assert r[i] in multiset(r) && r[j] in multiset(r);
      var ki :| 0 <= ki < |tags| && tags[ki] == r[i];
      var kj :| 0 <= kj < |tags| && tags[kj] == r[j];
      if ki != kj {
        assert TagName(tags[ki]) != TagName(tags[kj]);
      }
    }
  }

  /**
   * `list_tags` returns every stored tag exactly once, in strictly
   * ascending order of name.
   */
  lemma ListTagsExact(t: Tables)
    requires KeysUnique(t.tags, TagName)
    ensures var r := SortedTags(t.tags);
      && |r| == |t.tags|
      && (forall k | 0 <= k < |t.tags| :: t.tags[k] in r)
      && (forall i | 0 <= i < |r| :: r[i] in t.tags)
      && (forall i, j | 0 <= i < j < |r| :: LexLe(r[i].name, r[j].name) && r[i].name != r[j].name)
  {
    var r := SortedTags(t.tags);
    assert |r| == |multiset(r)| == |multiset(t.tags)| == |t.tags|;
    forall k | 0 <= k < |t.tags|
      ensures t.tags[k] in r
    {
      assert t.tags[k] in multiset(t.tags);
    }
    forall i | 0 <= i < |r|
      ensures r[i] in t.tags
    {
      assert r[i] in multiset(r);
    }
    DistinctByName(t.tags, r);
  }

  function TagResponder(links: seq<QuestionTag>): Tag -> TagResponse {
    (g: Tag) => TagToResponse(links, g)
  }

  /** The loop of `list_tags` and `search_tags`: one response per row, with its count. */
  method CollectTagResponses(links: seq<QuestionTag>, rows: seq<Tag>) returns (r: seq<TagResponse>)
    ensures r == Map(rows, TagResponder(links))
  {
    r := [];
    var i := 0;
    while i < |rows|
      invariant 0 <= i <= |rows|
      invariant |r| == i
      invariant forall k | 0 <= k < i :: r[k] == TagToResponse(links, rows[k])
    {
      var count := Count(links, ToTag(rows[i].id));
      r := r + [TagResponse(rows[i].id, rows[i].name, rows[i].description, count)];
      i := i + 1;
    }
  }

  /** `list_tags`. */
  method ListTags(db: Database) returns (r: seq<TagResponse>)
    ensures r == Map(SortedTags(db.tags), TagResponder(db.questionTags))
  {
    r := CollectTagResponses(db.questionTags, SortedTags(db.tags));
  }

  /** `search_tags`. */
  method SearchTags(db: Database, query: string) returns (r: seq<TagResponse>)
    ensures r == Map(SearchRows(db.tags, query), TagResponder(db.questionTags))
  {
    r := CollectTagResponses(db.questionTags, SearchRows(db.tags, query));
  }
}
