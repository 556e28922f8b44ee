/**
 * `src/pages/ask-question.tsx`: editing the tag list of a new question
 * (add, remove, the Enter and Backspace keys, tag suggestions) and the
 * submit handler, which checks the form and then issues the tag and
 * question calls in order.
 */
module AskQuestionPage {
  import opened Wrappers
  import opened Seqs
  import opened Strings
  import opened UserService

  /** The page state the tag editor works on. */
  datatype TagEditor = TagEditor(tags: seq<string>, input: string, suggestions: seq<string>)

  /** The tag list the editor keeps: lower case, no tag twice. */
  predicate TagListOk(tags: seq<string>) {
    Distinct(tags) && forall x | x in tags :: IsLower(x)
  }

  /**
   * `addTag`: an empty name does nothing at all. Otherwise the lower-cased
   * name is appended unless already present, and the input and the
   * suggestions are cleared.
   */
  function AddTag(e: TagEditor, tagName: string): (r: TagEditor)
    ensures tagName == "" ==> r == e
    ensures tagName != "" ==> r.input == "" && r.suggestions == []
    ensures tagName != "" ==> ToLower(tagName) in r.tags && e.tags <= r.tags
    ensures tagName != "" ==> forall x :: x in r.tags <==> x in e.tags || x == ToLower(tagName)
    ensures TagListOk(e.tags) ==> TagListOk(r.tags)
  {
    if tagName == "" then e
    else
      var name := ToLower(tagName);
      ToLowerIsLower(tagName);
      DistinctSnoc(e.tags, name);
      var tags := if name in e.tags then e.tags else e.tags + [name];
      TagEditor(tags, "", [])
  }

  /** Adding a tag that is already in the list changes only the input and the suggestions. */
  lemma AddTagTwice(e: TagEditor, tagName: string)
    requires tagName != ""
    ensures AddTag(AddTag(e, tagName), tagName) == AddTag(e, tagName)
  {
  }

  /** `removeTag`: the list without that tag, the others in their order. */
  function RemoveTag(tags: seq<string>, t: string): (r: seq<string>)
    ensures t !in r
    ensures forall x | x != t :: x in r <==> x in tags
  {
    if tags == [] then []
    else (if tags[0] == t then [] else [tags[0]]) + RemoveTag(tags[1..], t)
  }

  /** Removing a tag keeps the list lower case and free of repeats. */
  lemma {:induction false} RemoveTagKeepsList(tags: seq<string>, t: string)
    requires TagListOk(tags)
    ensures TagListOk(RemoveTag(tags, t))
  {
    if tags != [] {
      assert TagListOk(tags[1..]) by {
        assert forall x | x in tags[1..] :: x in tags;
      }
      RemoveTagKeepsList(tags[1..], t);
      assert tags[0] !in tags[1..];
    }
  }

  /** Removing a tag that is not there changes nothing. */
  lemma {:induction false} RemoveAbsent(tags: seq<string>, t: string)
    requires t !in tags
    ensures RemoveTag(tags, t) == tags
  {
    if tags != [] {
      RemoveAbsent(tags[1..], t);
    }
  }

  /**
   * In a list without repeats, removing the tag at index `k` closes the gap:
   * the other tags keep their order.
   */
  lemma {:induction false} RemoveTagAt(tags: seq<string>, k: nat)
    requires Distinct(tags) && k < |tags|
    ensures RemoveTag(tags, tags[k]) == tags[..k] + tags[k + 1..]
  {
    var rest := tags[1..];
    if k == 0 {
      assert tags[0] !in rest;
      RemoveAbsent(rest, tags[0]);
    } else {
      assert tags[0] != tags[k];
      RemoveTagAt(rest, k - 1);
      assert rest[k - 1] == tags[k];
      assert tags[..k] + tags[k + 1..] == [tags[0]] + (rest[..k - 1] + rest[k..]);
    }
  }

  /**
   * `handleKeyDown`: Enter with an input that is not blank adds the trimmed
   * input; Backspace with an empty input removes the last tag; any other key
   * changes nothing.
   */
  function KeyDown(e: TagEditor, key: string): (r: TagEditor)
    ensures TagListOk(e.tags) ==> TagListOk(r.tags)
  {
    if key == "Enter" && !IsBlank(JavaScript, e.input) then AddTag(e, Trim(JavaScript, e.input))
    else if key == "Backspace" && e.input == "" && |e.tags| > 0 then
      if TagListOk(e.tags) then RemoveTagKeepsList(e.tags, e.tags[|e.tags| - 1]); e.(tags := RemoveTag(e.tags, e.tags[|e.tags| - 1]))
      else e.(tags := RemoveTag(e.tags, e.tags[|e.tags| - 1]))
    else e
  }

  /** What the two keys do to a list the editor built. */
  lemma KeyDownEffect(e: TagEditor)
    requires TagListOk(e.tags)
    ensures !IsBlank(JavaScript, e.input) ==>
      var r := KeyDown(e, "Enter");
      ToLower(Trim(JavaScript, e.input)) in r.tags && r.input == "" && r.suggestions == []
    ensures e.input == "" && |e.tags| > 0 ==>
      KeyDown(e, "Backspace") == e.(tags := e.tags[..|e.tags| - 1])
    ensures e.input == "" ==> KeyDown(e, "Enter") == e
  {
    if e.input == "" && |e.tags| > 0 {
      RemoveTagAt(e.tags, |e.tags| - 1);
      assert e.tags[|e.tags|..] == [];
    }
    if !IsBlank(JavaScript, e.input) {
      assert Trim(JavaScript, e.input) != [];
    }
  }

  /** Suggestions are looked up only for an input longer than one character once trimmed. */
  predicate WantsSuggestions(value: string) {
    Utf16Len(Trim(JavaScript, value)) > 1
  }

  /**
   * `handleTagInputChange`: the input takes the new value; when it is long
   * enough the tag search runs (`asked`) and its names, or nothing on an
   * error, become the suggestions; otherwise the suggestions are cleared.
   */
  function InputChange(e: TagEditor, value: string, found: Result<seq<string>, string>): (r: (TagEditor, bool))
    ensures r.0.input == value && r.0.tags == e.tags
    ensures r.1 <==> WantsSuggestions(value)
    ensures r.0.suggestions == if r.1 && found.Ok? then found.value else []
  {
    if WantsSuggestions(value) then
      (e.(input := value, suggestions := if found.Ok? then found.value else []), true)
    else (e.(input := value, suggestions := []), false)
  }

  /** A single character, even with spaces around it, is not looked up. */
  lemma OneCharacterNotLookedUp(c: char, e: TagEditor, found: Result<seq<string>, string>)
    requires c as int < 0x1_0000
    ensures !InputChange(e, [c], found).1
  {
    assert |Trim(JavaScript, [c])| <= 1;
    if |Trim(JavaScript, [c])| == 1 {
      assert Trim(JavaScript, [c])[0] == c;
    }
  }

  const TitleMissing := "Please enter a title for your question"
  const ContentMissing := "Please provide details for your question"
  const TagsMissing := "Please add at least one tag"

  /** The checks of `handleSubmit`, in order: the title, the content, the tags. */
  function Validate(title: string, content: string, tags: seq<string>): (r: Option<string>)
    ensures r.None? <==> !IsBlank(JavaScript, title) && !IsBlank(JavaScript, content) && |tags| > 0
    ensures IsBlank(JavaScript, title) ==> r == Some(TitleMissing)
    ensures !IsBlank(JavaScript, title) && IsBlank(JavaScript, content) ==> r == Some(ContentMissing)
    ensures !IsBlank(JavaScript, title) && !IsBlank(JavaScript, content) && |tags| == 0 ==> r == Some(TagsMissing)
  {
    if Trim(JavaScript, title) == [] then Some(TitleMissing)
    else if Trim(JavaScript, content) == [] then Some(ContentMissing)
    else if |tags| == 0 then Some(TagsMissing)
    else None
  }

  /** A call the submit handler makes to the question and tag services. */
  datatype Call =
    | CreateTag(name: string)
    | CreateQuestion(userId: int, title: string, content: string, tags: seq<string>)
    | IncrementTagQuestionCount(name: string)

  /** The calls of a submit that does not fail: every tag, the question, then every count. */
  function Planned(userId: int, title: string, content: string, tags: seq<string>): (p: seq<Call>)
    ensures |p| == 2 * |tags| + 1
    ensures forall i | 0 <= i < |tags| :: p[i] == CreateTag(tags[i]) && p[|tags| + 1 + i] == IncrementTagQuestionCount(tags[i])
    ensures p[|tags|] == CreateQuestion(userId, title, content, tags)
  {
    Map(tags, (t: string) => CreateTag(t)) + [CreateQuestion(userId, title, content, tags)]
      + Map(tags, (t: string) => IncrementTagQuestionCount(t))
  }

  datatype SubmitResult = Invalid(message: string) | NotLoggedIn | Posted | Failed

  /**
   * `handleSubmit`: a form that fails a check is reported and nothing is
   * called; without a user nothing is called either. Otherwise the planned
   * calls run in order; `failing` is the position of the first call that
   * throws, if any, and the calls stop there.
   */
  method Submit(title: string, content: string, tags: seq<string>, user: Option<SessionUser>, failing: Option<nat>)
    returns (result: SubmitResult, calls: seq<Call>)
    ensures Validate(title, content, tags).Some? ==> result == Invalid(Validate(title, content, tags).value) && calls == []
    ensures Validate(title, content, tags).None? && user.None? ==> result == NotLoggedIn && calls == []
    ensures Validate(title, content, tags).None? && user.Some? ==>
      var planned := Planned(user.value.id, title, content, tags);
      if failing.Some? && failing.value < |planned| then
        result == Failed && calls == planned[..failing.value + 1]
      else
        result == Posted && calls == planned
  {
    var invalid := Validate(title, content, tags);
    if invalid.Some? {
      return Invalid(invalid.value), [];
    }
    if user.None? {
      return NotLoggedIn, [];
    }
    result, calls := RunPlanned(user.value.id, title, content, tags, failing);
  }

  /** The calls of a valid submit by a signed-in user, stopping at the first that throws. */
  method RunPlanned(userId: int, title: string, content: string, tags: seq<string>, failing: Option<nat>)
    returns (result: SubmitResult, calls: seq<Call>)
    ensures var planned := Planned(userId, title, content, tags);
      if failing.Some? && failing.value < |planned| then
        result == Failed && calls == planned[..failing.value + 1]
      else
        result == Posted && calls == planned
  {
    ghost var planned := Planned(userId, title, content, tags);
    calls := [];
    var i := 0;
    while i < |tags|
      invariant 0 <= i <= |tags|
      invariant calls == planned[..i]
      invariant failing.None? || failing.value >= i
    {
      assert planned[..i + 1] == planned[..i] + [CreateTag(tags[i])];
      calls := calls + [CreateTag(tags[i])];
      if failing == Some(i) {
        return Failed, calls;
      }
      i := i + 1;
    }
    assert planned[..|tags| + 1] == planned[..|tags|] + [CreateQuestion(userId, title, content, tags)];
    calls := calls + [CreateQuestion(userId, title, content, tags)];
    if failing == Some(|tags|) {
      return Failed, calls;
    }
    i := 0;
    while i < |tags|
      invariant 0 <= i <= |tags|
      invariant calls == planned[..|tags| + 1 + i]
      invariant failing.None? || failing.value >= |tags| + 1 + i
    {
      assert planned[..|tags| + 1 + i + 1] == planned[..|tags| + 1 + i] + [IncrementTagQuestionCount(tags[i])];
      calls := calls + [IncrementTagQuestionCount(tags[i])];
      if failing == Some(|tags| + 1 + i) {
        return Failed, calls;
      }
      i := i + 1;
    }
    assert planned[..|planned|] == planned;
    result := Posted;
  }
}
