# QueueOverflow: a Dafny model of the Q&A core

QueueOverflow is a desktop question-and-answer site built with Tauri. The Rust
backend keeps users, questions, answers, votes, tags, comments and bookmarks
in a database it reaches through SeaORM at the address in `DATABASE_URL`. The
model assumes SQLite with its default BINARY collation. Each repository runs one kind of query or
transaction, and the command handlers check requests before they hand them to
a repository. Every error is one `AppError`, which a command turns into its
display text. The React frontend keeps the signed-in user and the token in
one `UserService` object, mirrored into local storage. Its pages check the
forms, call the backend and show toasts.

The model has one Dafny module per source file:

| Dafny file | module | source |
|---|---|---|
| `wrappers.dfy`, `seqs.dfy`, `strings.dfy` | `Wrappers`, `Seqs`, `Strings` | helpers: `Option` and `Result`; filtering, stable sort, paging; `trim`, lower case, substring search, UTF-8 and UTF-16 lengths |
| `store.dfy` | `Store` | the schema: one row datatype per table; `class Database` with one table per field and one AUTOINCREMENT counter per table |
| `errors.dfy` | `AppErrors` | `src-tauri/src/error.rs` |
| `votes.dfy`, `answers.dfy`, `questions.dfy`, `tags.dfy`, `comments.dfy`, `bookmarks.dfy`, `users.dfy` | `VoteRepository`, … `UserRepository` | `src-tauri/src/repository/*_repository.rs` |
| `handlers.dfy` | `QuestionHandlers`, `AnswerHandlers` | `src-tauri/src/handlers/{question,answer}_handlers.rs` |
| `session.dfy` | `UserService` | `src/services/user-service.ts` |
| `ask_question.dfy`, `register_page.dfy`, `login_page.dfy`, `change_password.dfy`, `question_detail.dfy`, `profile.dfy`, `edit_profile.dfy` | `AskQuestionPage`, … `EditProfilePage` | `src/pages/*.tsx` |

Each repository operation that writes has two parts:

- a function `XSpec(tables, …)` that gives the new tables and the response;
- a method `X(db, …)` with `modifies db`, whose `ensures` ties the new state of `db` to that function.

A transaction is staged on locals and committed at its end, so a rollback
leaves `db` as it was. Each `XKeepsValid` lemma proves that the operation
keeps the schema's invariants:

- ids are unique;
- every id is below the table's AUTOINCREMENT counter;
- usernames and emails are unique;
- tag names are unique;
- a user has at most one vote per target. No index declares this; `create_vote` keeps it by looking the pair up before it inserts.

Reads are functions over the tables. A read whose source loops over rows is a
method with that loop, proved equal to the function.

Conventions the model uses:

- **Clock.** The time is a parameter `now`. One reading stands for every `Utc::now()` of a call, so `create_answer` and `create_question`, which read the clock twice, get `created_at == updated_at`. In the source the second reading can be later.
- **Passwords.** The argon2 hash is a value that verifies exactly its own password.
- **Frontend calls.** Each call to `invoke` or to a service is an outcome parameter: the answer, or the error thrown. When a handler makes several calls in a row, an optional index `failing` names the first call that throws.
- **Lengths.** A Rust `len()` counts UTF-8 bytes (`Strings.Utf8Len`). A JavaScript `.length` counts UTF-16 code units (`Strings.Utf16Len`).
- **Whitespace.** `trim` takes the language as a parameter: Rust's whitespace includes U+0085, JavaScript's includes U+FEFF, and the rest is shared (`Strings.TrimsDiffer`).

## Model

| member | source | states |
|---|---|---|
| AppErrors.Parse | src-tauri/src/error.rs:12-20 | reading a displayed error back recovers its kind and message; a text with no known prefix reads as nothing |
| AppErrors.ParseDisplay | src-tauri/src/error.rs:12-20 | `Parse(Display(e)) == Some(e)`: the display text determines the error |
| AppErrors.DisplayInjective | src-tauri/src/error.rs:12-20 | two errors that display alike are equal |
| AppErrors.ConversionsKeepText | src-tauri/src/error.rs:24-46 | `From<DbErr>` gives `Database` and `From<io::Error>`/`String`/`&str` give `Internal`, each carrying the message text unchanged |
| AppErrors.ToCommandResult | src-tauri/src/handlers/question_handlers.rs:24-27 | a command passes a success on unchanged and turns an error into a text from which the error can be read back |
| VoteRepository.ReputationChange | src-tauri/src/repository/vote_repository.rs:126-148 | the owner's delta is positive exactly for a first or switched up-vote on a question or an answer, and negative exactly for a first or switched down-vote on one; any other kind of target gets 0 |
| VoteRepository.SwitchIsDifference | src-tauri/src/repository/vote_repository.rs:126-148 | switching a vote undoes the old vote's reward and grants the new one's |
| VoteRepository.AnswerUpVotesWeighDouble | src-tauri/src/repository/vote_repository.rs:126-148 | an up-vote on an answer is worth twice one on a question; down-votes cost both the same |
| VoteRepository.TargetOwner | src-tauri/src/repository/vote_repository.rs:150-189 | for a question or an answer target there is an owner exactly when the target row exists; other kinds of target have none |
| VoteRepository.OwnerReputation | src-tauri/src/repository/vote_repository.rs:150-189 | without a target the users stay as they are; an owner with no user row is an `OwnerMissing` error; otherwise the table keeps its size |
| VoteRepository.OwnerReputationEffect | src-tauri/src/repository/vote_repository.rs:150-189 | the owner's reputation changes by exactly the delta, no other user changes, and the users table stays valid |
| VoteRepository.CreateVoteSpec | src-tauri/src/repository/vote_repository.rs:15-79 | only the votes, the users and the vote counter change; an error changes nothing; the vote returned is stored, has the caller's user and target and the requested type |
| VoteRepository.CreateVoteKeepsValid | src-tauri/src/repository/vote_repository.rs:15-79 | `create_vote` keeps every table invariant, including one vote per user and target |
| VoteRepository.CreateVote | src-tauri/src/repository/vote_repository.rs:15-79 | the method leaves the database in exactly the state `CreateVoteSpec` gives and returns its response |
| VoteRepository.RepeatedVoteChangesNothing | src-tauri/src/repository/vote_repository.rs:53-56 | repeating the vote a user already has changes no table and returns that vote |
| VoteRepository.SwitchRewritesOnlyType | src-tauri/src/repository/vote_repository.rs:35-52 | a switch keeps the vote's id, user, target and creation time and changes only its type, and the owner gets the switch delta |
| VoteRepository.FirstVoteInserts | src-tauri/src/repository/vote_repository.rs:57-77 | a first vote appends one row with the next id and credits the owner with the fresh delta |
| VoteRepository.GetVoteCount | src-tauri/src/repository/vote_repository.rs:81-99 | the up-vote and down-vote counts of the target, with total = up − down |
| VoteRepository.GetUserVote | src-tauri/src/repository/vote_repository.rs:101-113 | the type of a vote by that user on that target, or none when there is no such row |
| VoteRepository.GetUserVoteIsTheVote | src-tauri/src/repository/vote_repository.rs:101-113 | under the one-vote-per-key invariant, the vote found is the user's only vote on the target |
| VoteRepository.VoteScore | src-tauri/src/repository/answer_repository.rs:69-71 | the responses' fold counts +1 per "up" vote on the target and −1 per vote of any other type |
| VoteRepository.ScoreAgreesWithCount | src-tauri/src/repository/vote_repository.rs:81-99 | when every vote is "up" or "down", the responses' fold equals the total of `get_vote_count` |
| AnswerRepository.TransformAnswer | src-tauri/src/repository/answer_repository.rs:57-90 | a response exists exactly when the author row exists; otherwise the result is "User not found" |
| AnswerRepository.TransformAnswerFields | src-tauri/src/repository/answer_repository.rs:57-90 | the response copies the row, reports `is_accepted != 0`, embeds the author's summary and carries the vote fold |
| AnswerRepository.GetAnswerById | src-tauri/src/repository/answer_repository.rs:34-41 | the response for the stored answer with that id, and "Answer not found" when there is none |
| AnswerRepository.CreateAnswerSpec | src-tauri/src/repository/answer_repository.rs:15-32 | the row is appended with the next id and the given fields; the read-back fails exactly when the author row is missing, and the row stays inserted (no foreign key is checked) |
| AnswerRepository.CreateAnswerKeepsValid | src-tauri/src/repository/answer_repository.rs:15-32 | `create_answer` keeps every table invariant |
| AnswerRepository.CreateAnswer | src-tauri/src/repository/answer_repository.rs:15-32 | the method leaves the database in the state `CreateAnswerSpec` gives and returns its response |
| AnswerRepository.AnswersOf | src-tauri/src/repository/answer_repository.rs:43-49 | the query's rows are exactly the question's answers, each as often as stored, newest first |
| AnswerRepository.GetAnswersByQuestionId | src-tauri/src/repository/answer_repository.rs:43-55 | the responses of the rows in order; the first row with a missing author decides the error |
| AnswerRepository.CollectResponses | src-tauri/src/repository/answer_repository.rs:50-54 | the loop computes the same result as mapping the rows and stopping at the first error |
| AnswerRepository.AcceptAnswerSpec | src-tauri/src/repository/answer_repository.rs:92-155 | "Answer not found" and then "Question not found" are refused with no change; otherwise the tables after the whole transaction |
| AnswerRepository.AcceptAnswerAnswers | src-tauri/src/repository/answer_repository.rs:108-125 | afterwards the answer is the only accepted answer of its question, and answers to other questions are untouched |
| AnswerRepository.AcceptAnswerQuestions | src-tauri/src/repository/answer_repository.rs:128-134 | the answer's question is marked answered, and no other question changes |
| AnswerRepository.AcceptAnswerReputation | src-tauri/src/repository/answer_repository.rs:137-150 | the answer's author gains exactly 15 unless they own the question, and no other user changes |
| AnswerRepository.AcceptAnswerKeepsValid | src-tauri/src/repository/answer_repository.rs:92-155 | `accept_answer` keeps every table invariant |
| AnswerRepository.AcceptTwiceRewardsTwice | src-tauri/src/repository/answer_repository.rs:137-150 | accepting the same answer again pays the reward again, because nothing checks that it was already accepted |
| AnswerRepository.ClearAcceptedAnswers | src-tauri/src/repository/answer_repository.rs:108-116 | the `update_many` loop unsets `is_accepted` on exactly the question's answers and keeps every other field |
| AnswerRepository.AcceptAnswer | src-tauri/src/repository/answer_repository.rs:92-155 | the method leaves the database in the state `AcceptAnswerSpec` gives, all or nothing |
| QuestionRepository.TagNames | src-tauri/src/repository/question_repository.rs:68-79 | a name is listed exactly when a stored tag of that name is linked to the question |
| QuestionRepository.TransformQuestion | src-tauri/src/repository/question_repository.rs:127-174 | a response exists exactly when the author row exists; otherwise the result is "User not found" |
| QuestionRepository.TransformQuestionFields | src-tauri/src/repository/question_repository.rs:127-174 | the response copies the row and flags, embeds the author's summary, counts the question's answers and folds its votes |
| QuestionRepository.GetQuestionById | src-tauri/src/repository/question_repository.rs:68-79 | the response of the stored question with its tag names, or "Question not found"; `view_count` is reported as stored |
| QuestionRepository.AddTag | src-tauri/src/repository/question_repository.rs:38-62 | one round of the loop: reuse the tag with that name or insert it, then link it; only a repeated link fails |
| QuestionRepository.AddTags | src-tauri/src/repository/question_repository.rs:38-62 | the rounds in order; the state only grows, and the first failure stops the loop |
| QuestionRepository.AddExistingTag | src-tauri/src/repository/question_repository.rs:39-44 | for a name whose tag exists, the round fails exactly when that name was seen before |
| QuestionRepository.AddNewTag | src-tauri/src/repository/question_repository.rs:45-52 | for a name without a tag, the round inserts the tag with the next id and the link, and cannot fail |
| QuestionRepository.AddTagsLast | src-tauri/src/repository/question_repository.rs:38-62 | the loop over a prefix plus one name is the loop over the prefix followed by one round |
| QuestionRepository.CreateQuestionSpec | src-tauri/src/repository/question_repository.rs:15-66 | the question row, then one tag and link per name, committed only when every round succeeds; otherwise the tables are unchanged |
| QuestionRepository.CreateQuestionKeepsValid | src-tauri/src/repository/question_repository.rs:15-66 | `create_question` keeps every table invariant, including unique tag names |
| QuestionRepository.CreatedQuestionHasItsTags | src-tauri/src/repository/question_repository.rs:38-62 | the transaction commits exactly when no name repeats, and the question it returns carries exactly those names |
| QuestionRepository.CreateQuestionTagRows | src-tauri/src/repository/question_repository.rs:45-52 | a committed create inserts a tag row only for a name no tag had, with no description |
| QuestionRepository.TagRound | src-tauri/src/repository/question_repository.rs:38-62 | one iteration of the method's loop agrees with `AddTag` |
| QuestionRepository.TagLoop | src-tauri/src/repository/question_repository.rs:38-62 | the method's loop agrees with `AddTags` |
| QuestionRepository.CreateQuestion | src-tauri/src/repository/question_repository.rs:15-66 | the method leaves the database in the state `CreateQuestionSpec` gives and returns its response |
| QuestionRepository.Searched | src-tauri/src/repository/question_repository.rs:91-97 | the rows whose title or content contains the term, in table order; all rows when there is no term |
| QuestionRepository.Ordered | src-tauri/src/repository/question_repository.rs:99-108 | a permutation of the searched rows, sorted by the requested order ("oldest", "most_viewed", newest otherwise) |
| QuestionRepository.QueryRowsArePage | src-tauri/src/repository/question_repository.rs:110-111 | at most `per_page` rows, the slice of the ordered result that starts at `(page − 1) · per_page` |
| QuestionRepository.QueryRowsOrdered | src-tauri/src/repository/question_repository.rs:99-111 | the rows of a page come in the requested order |
| QuestionRepository.CollectQuestionResponses | src-tauri/src/repository/question_repository.rs:115-122 | the loop computes the responses of the page's rows, stopping at the first error |
| QuestionRepository.ListQuestions | src-tauri/src/repository/question_repository.rs:81-125 | the responses of one page of the query; the `tag` argument does not affect the result |
| TagRepository.QuestionCountIsLinks | src-tauri/src/repository/tag_repository.rs:25-42 | a tag's `question_count` is the number of links to it |
| TagRepository.GetTagById | src-tauri/src/repository/tag_repository.rs:25-42 | the stored tag with that id and its count of links, or "Tag not found" |
| TagRepository.GetTagByIdFinds | src-tauri/src/repository/tag_repository.rs:25-42 | every stored tag is found by its id |
| TagRepository.CreateTagSpec | src-tauri/src/repository/tag_repository.rs:15-23 | a taken name fails the unique constraint with the tables unchanged; otherwise a new row with the next id, the name and the description, and only the tags change |
| TagRepository.CreateTagKeepsValid | src-tauri/src/repository/tag_repository.rs:15-23 | `create_tag` keeps tag names unique |
| TagRepository.CreatedTagHasNoQuestions | src-tauri/src/repository/tag_repository.rs:15-23 | a tag just created has a `question_count` of 0 |
| TagRepository.CreateTag | src-tauri/src/repository/tag_repository.rs:15-23 | the method leaves the database in the state `CreateTagSpec` gives |
| TagRepository.SortedTags | src-tauri/src/repository/tag_repository.rs:44-66 | every tag, in ascending name order |
| TagRepository.SearchIsFilteredList | src-tauri/src/repository/tag_repository.rs:68-91 | a search returns the listed tags whose name contains the query, in the same order |
| TagRepository.SearchTagsExact | src-tauri/src/repository/tag_repository.rs:68-91 | a search returns exactly the stored tags containing the query, each once, in strictly ascending name order |
| TagRepository.SearchRowsStored | src-tauri/src/repository/tag_repository.rs:68-91 | every row of a search is a stored tag whose name contains the query |
| TagRepository.ListTagsExact | src-tauri/src/repository/tag_repository.rs:44-66 | the list holds every stored tag exactly once, in strictly ascending name order |
| TagRepository.CollectTagResponses | src-tauri/src/repository/tag_repository.rs:50-63 | the loop gives one response per row, each with its count of links |
| TagRepository.ListTags | src-tauri/src/repository/tag_repository.rs:44-66 | `list_tags` returns the responses of `SortedTags` |
| TagRepository.SearchTags | src-tauri/src/repository/tag_repository.rs:68-91 | `search_tags` returns the responses of the filtered rows |
| CommentRepository.WithAuthor | src-tauri/src/repository/comment_repository.rs:15-66 | a response exists exactly when the author exists, and it copies the row |
| CommentRepository.CreateCommentSpec | src-tauri/src/repository/comment_repository.rs:15-66 | blank content is refused with nothing written; otherwise the row is inserted with the next id, and only then is the author looked up |
| CommentRepository.CreateCommentKeepsValid | src-tauri/src/repository/comment_repository.rs:15-66 | `create_comment` keeps every table invariant |
| CommentRepository.CreateComment | src-tauri/src/repository/comment_repository.rs:15-66 | the method leaves the database in the state `CreateCommentSpec` gives |
| CommentRepository.CommentsOn | src-tauri/src/repository/comment_repository.rs:68-109 | exactly the comments on the target, each as often as stored, newest first |
| CommentRepository.CollectCommentResponses | src-tauri/src/repository/comment_repository.rs:68-109 | the loop gives the responses in order and stops at the first comment whose author is missing |
| CommentRepository.GetComments | src-tauri/src/repository/comment_repository.rs:68-109 | `get_comments` returns the loop's result over `CommentsOn` |
| CommentRepository.UpdateCommentSpec | src-tauri/src/repository/comment_repository.rs:111-159 | blank content, then a missing comment, then another user's comment are refused with nothing written |
| CommentRepository.UpdateCommentFound | src-tauri/src/repository/comment_repository.rs:111-159 | for the owner, only that comment's content and update time change; another user changes nothing |
| CommentRepository.UpdateCommentKeepsValid | src-tauri/src/repository/comment_repository.rs:111-159 | `update_comment` keeps every table invariant |
| CommentRepository.UpdateComment | src-tauri/src/repository/comment_repository.rs:111-159 | the method leaves the database in the state `UpdateCommentSpec` gives |
| CommentRepository.DeleteCommentSpec | src-tauri/src/repository/comment_repository.rs:161-180 | a missing comment, then another user's comment, are refused with nothing removed |
| CommentRepository.DeleteCommentFound | src-tauri/src/repository/comment_repository.rs:161-180 | another user's call changes nothing; the owner's call removes exactly that row, and every other row stays |
| CommentRepository.DeleteCommentKeepsValid | src-tauri/src/repository/comment_repository.rs:161-180 | `delete_comment` keeps every table invariant |
| CommentRepository.DeleteComment | src-tauri/src/repository/comment_repository.rs:161-180 | the method leaves the database in the state `DeleteCommentSpec` gives |
| BookmarkRepository.DefaultTitleNamesTarget | src-tauri/src/repository/bookmark_repository.rs:23-26 | default titles of two targets of the same kind differ when the targets do |
| BookmarkRepository.CreateBookmarkSpec | src-tauri/src/repository/bookmark_repository.rs:15-47 | the row is inserted with the next id and the given or default title, and returned; the target is not checked |
| BookmarkRepository.CreateBookmarkKeepsValid | src-tauri/src/repository/bookmark_repository.rs:15-47 | `create_bookmark` keeps every table invariant |
| BookmarkRepository.CreateBookmark | src-tauri/src/repository/bookmark_repository.rs:15-47 | the method leaves the database in the state `CreateBookmarkSpec` gives |
| BookmarkRepository.BookmarksOf | src-tauri/src/repository/bookmark_repository.rs:49-54 | exactly the user's bookmarks, newest first |
| BookmarkRepository.ListBookmarksOwn | src-tauri/src/repository/bookmark_repository.rs:49-69 | every listed bookmark is a stored bookmark of the user, and the list is newest first |
| BookmarkRepository.ListBookmarksComplete | src-tauri/src/repository/bookmark_repository.rs:49-69 | every bookmark of the user is listed |
| BookmarkRepository.FindOwned | src-tauri/src/repository/bookmark_repository.rs:99-103 | the bookmark with that id when it belongs to the user, and none otherwise |
| BookmarkRepository.TruncateAsWrittenShape | src-tauri/src/repository/bookmark_repository.rs:217-224 | a text whose UTF-8 bytes fit in `max` comes back as it is; any other text becomes at most its first `max` characters followed by "..." |
| BookmarkRepository.TruncateIsPreview | src-tauri/src/repository/bookmark_repository.rs:217-224 | the corrected preview: a text of at most `max` characters is its own preview; a longer one is cut to its first `max` characters followed by "..."; on ASCII text it agrees with the code as written |
| BookmarkRepository.ContentSnapshot | src-tauri/src/repository/bookmark_repository.rs:170-215 | an unknown kind is an internal error; a missing question or answer is "not found"; a question's snapshot has its title, an answer's has "Answer to: " and its question's title |
| BookmarkRepository.QuestionSnapshot | src-tauri/src/repository/bookmark_repository.rs:172-188 | a stored question with a stored author gets its title, the preview of its content as `truncate_content` makes it, and its author |
| BookmarkRepository.SnapshotAuthorMissing | src-tauri/src/repository/bookmark_repository.rs:178-181 | a question or answer whose author row is missing gets "User not found" |
| BookmarkRepository.AnswerSnapshot | src-tauri/src/repository/bookmark_repository.rs:190-212 | a stored answer with its question and author gets the question's title, the answer's preview as `truncate_content` makes it, and the answer's author |
| BookmarkRepository.GetBookmark | src-tauri/src/repository/bookmark_repository.rs:71-90 | only the caller's own bookmark is returned, with a snapshot; otherwise "Bookmark not found" |
| BookmarkRepository.GetBookmarkFound | src-tauri/src/repository/bookmark_repository.rs:71-90 | the caller's own bookmark comes back with the snapshot of its target, and the snapshot's error is the call's error |
| BookmarkRepository.UpdateBookmarkSpec | src-tauri/src/repository/bookmark_repository.rs:92-128 | only the caller's own bookmark is updated; a missing title keeps the stored one, while a missing note clears it |
| BookmarkRepository.UpdateBookmarkFound | src-tauri/src/repository/bookmark_repository.rs:92-128 | only that row is rewritten, in its title and note |
| BookmarkRepository.UpdateBookmarkKeepsValid | src-tauri/src/repository/bookmark_repository.rs:92-128 | `update_bookmark` keeps every table invariant |
| BookmarkRepository.UpdateBookmark | src-tauri/src/repository/bookmark_repository.rs:92-128 | the method leaves the database in the state `UpdateBookmarkSpec` gives |
| BookmarkRepository.DeleteBookmarkSpec | src-tauri/src/repository/bookmark_repository.rs:130-142 | the caller's rows with that id are removed; none removed means "Bookmark not found" |
| BookmarkRepository.DeleteBookmarkRemovesOne | src-tauri/src/repository/bookmark_repository.rs:130-142 | because ids are unique, a successful delete removes exactly one row |
| BookmarkRepository.DeleteBookmarkKeepsValid | src-tauri/src/repository/bookmark_repository.rs:130-142 | `delete_bookmark` keeps every table invariant |
| BookmarkRepository.DeleteBookmark | src-tauri/src/repository/bookmark_repository.rs:130-142 | the method leaves the database in the state `DeleteBookmarkSpec` gives |
| UserRepository.RegisterSpec | src-tauri/src/repository/user_repository.rs:43-90 | a taken username is refused first and then a taken email; otherwise a user is inserted with the next id and a hash of the password |
| UserRepository.RegisterKeepsValid | src-tauri/src/repository/user_repository.rs:43-90 | usernames and emails stay unique |
| UserRepository.RegisteredUserFields | src-tauri/src/repository/user_repository.rs:73-85 | a new account has reputation 0, no bio, avatar or login, is active, and verifies its own password |
| UserRepository.RegisterTwiceRefused | src-tauri/src/repository/user_repository.rs:47-54 | registering the same username twice fails the second time and inserts nothing |
| UserRepository.Register | src-tauri/src/repository/user_repository.rs:43-90 | the method leaves the database in the state `RegisterSpec` gives |
| UserRepository.LoginSpec | src-tauri/src/repository/user_repository.rs:92-114 | an unknown email, then a wrong password, are refused with no change; otherwise `last_login` becomes now |
| UserRepository.LoginSetsOnlyLastLogin | src-tauri/src/repository/user_repository.rs:92-114 | a successful login is the account with that email and that password, and only its `last_login` changes |
| UserRepository.LoginKeepsValid | src-tauri/src/repository/user_repository.rs:92-114 | `login` keeps the users table valid |
| UserRepository.Login | src-tauri/src/repository/user_repository.rs:92-114 | the method leaves the database in the state `LoginSpec` gives |
| UserRepository.Apply | src-tauri/src/repository/user_repository.rs:127-142 | each field the request carries replaces the stored one, and the others stay |
| UserRepository.UpdateProfileSpec | src-tauri/src/repository/user_repository.rs:116-148 | a missing user, then a blank display name, are refused; otherwise the fields given are written |
| UserRepository.UpdateProfileFound | src-tauri/src/repository/user_repository.rs:116-148 | only that user changes, and in it only the fields the request carries |
| UserRepository.UpdateProfileKeepsValid | src-tauri/src/repository/user_repository.rs:116-148 | `update_profile` keeps the users table valid |
| UserRepository.UpdateProfile | src-tauri/src/repository/user_repository.rs:116-148 | the method leaves the database in the state `UpdateProfileSpec` gives |
| UserRepository.ChangePasswordSpec | src-tauri/src/repository/user_repository.rs:150-193 | a refusal changes nothing; only the users table changes; it succeeds exactly when the user exists, the current password verifies, the new one has at least 8 UTF-8 bytes and it matches the confirmation |
| UserRepository.ChangePasswordOrder | src-tauri/src/repository/user_repository.rs:150-193 | which refusal wins for an existing user: the current password first, then the length, then the confirmation |
| UserRepository.ChangePasswordKeepsValid | src-tauri/src/repository/user_repository.rs:150-193 | `change_password` keeps the users table valid |
| UserRepository.ChangePassword | src-tauri/src/repository/user_repository.rs:150-193 | the method leaves the database in the state `ChangePasswordSpec` gives |
| UserRepository.ModelToResponse | src-tauri/src/repository/user_repository.rs:195-206 | the response copies the public fields of the row |
| UserRepository.ResponseOmitsSecrets | src-tauri/src/repository/user_repository.rs:195-206 | users that differ only in the hash, the last login or the active flag get the same response |
| QuestionHandlers.CreateQuestion | src-tauri/src/handlers/question_handlers.rs:8-28 | a blank title is refused with the database untouched; otherwise the repository's transition, with its error displayed |
| QuestionHandlers.GetQuestion | src-tauri/src/handlers/question_handlers.rs:31-41 | the stored question's response, or "Not found: Question not found" |
| QuestionHandlers.OrDefault | src-tauri/src/handlers/question_handlers.rs:51-52 | the value given, or the default when it is missing |
| QuestionHandlers.ListQuestions | src-tauri/src/handlers/question_handlers.rs:44-60 | page 1 and 10 per page by default; the result is the repository's page, with its error displayed |
| QuestionHandlers.DefaultQueryIsFirstPage | src-tauri/src/handlers/question_handlers.rs:44-60 | a query without paging gets the first ten rows of the ordered search |
| AnswerHandlers.CreateAnswer | src-tauri/src/handlers/answer_handlers.rs:7-26 | blank content is refused with the database untouched; otherwise the repository's transition, with its error displayed |
| AnswerHandlers.GetQuestionAnswers | src-tauri/src/handlers/answer_handlers.rs:29-39 | the repository's list, or its only possible error, "User not found", displayed |
| AnswerHandlers.AcceptAnswer | src-tauri/src/handlers/answer_handlers.rs:42-51 | the repository's transition; success carries nothing |
| AnswerHandlers.AcceptAnswerMessages | src-tauri/src/handlers/answer_handlers.rs:42-51 | the texts for a missing answer and a missing question are "Not found: Answer not found" and "Not found: Question not found" |
| UserService.Restored | src/services/user-service.ts:38-46 | a session is restored exactly when both keys hold non-empty values, and then it is exactly the stored user and token |
| UserService.Rethrown | src/services/user-service.ts:60-63 | the error's message when it is non-empty, and the fallback otherwise |
| Strings.OrFallback | src/pages/login.tsx:47 | the message unless it is empty; empty only when both are |
| UserService.WithSession | src/services/user-service.ts:114-119 | both session keys are written and every other key stays |
| UserService.WithoutSession | src/services/user-service.ts:107-112 | both session keys are removed and every other key stays |
| UserService.RestoreAfterWrite | src/services/user-service.ts:114-119 | after a write with a non-empty token, a restart restores exactly the written session |
| UserService.RestoreAfterLogout | src/services/user-service.ts:107-112 | after a logout, a restart restores no session |
| UserService.UserService.constructor | src/services/user-service.ts:38-46 | the object starts with the session restored from storage |
| UserService.UserService.SetUserAndToken | src/services/user-service.ts:114-119 | the user and the token in memory and in storage are the response's |
| UserService.UserService.Login | src/services/user-service.ts:55-64 | success installs the session; an error is rethrown with its message or "Login failed", and nothing changes |
| UserService.UserService.Register | src/services/user-service.ts:66-75 | as login, with "Registration failed" |
| UserService.UserService.Logout | src/services/user-service.ts:107-112 | no session in memory, and both keys are removed from storage |
| UserService.UserService.GetCurrentUser | src/services/user-service.ts:77-93 | without a user or a non-empty token nothing is asked; the backend's user replaces the one in memory only; an error logs out |
| UserService.AuthenticatedHasUser | src/services/user-service.ts:95-105 | under the session invariant, an authenticated session has a user |
| AskQuestionPage.AddTag | src/pages/ask-question.tsx:37-46 | an empty name changes nothing; otherwise the lower-cased name is in the list (added once), and the input and the suggestions are cleared |
| AskQuestionPage.AddTagTwice | src/pages/ask-question.tsx:37-46 | adding a tag twice is the same as adding it once |
| AskQuestionPage.RemoveTag | src/pages/ask-question.tsx:48-50 | the tag is gone and every other tag stays |
| AskQuestionPage.RemoveTagKeepsList | src/pages/ask-question.tsx:48-50 | the list stays lower case and free of repeats |
| AskQuestionPage.RemoveAbsent | src/pages/ask-question.tsx:48-50 | removing a tag that is not there changes nothing |
| AskQuestionPage.RemoveTagAt | src/pages/ask-question.tsx:48-50 | in a list without repeats, removing the k-th tag closes the gap and keeps the order |
| AskQuestionPage.KeyDown | src/pages/ask-question.tsx:106-113 | the keys keep the tag list lower case and free of repeats |
| AskQuestionPage.KeyDownEffect | src/pages/ask-question.tsx:106-113 | Enter with text adds the trimmed, lower-cased text and clears the input; Backspace on an empty input drops the last tag; Enter on an empty input does nothing |
| AskQuestionPage.InputChange | src/pages/ask-question.tsx:20-35 | the input takes the value; the search runs exactly when the trimmed value is longer than one unit, and its names or nothing become the suggestions |
| AskQuestionPage.OneCharacterNotLookedUp | src/pages/ask-question.tsx:20-35 | one character, even with spaces around it, does not trigger a search |
| AskQuestionPage.Validate | src/pages/ask-question.tsx:55-68 | the form passes exactly when title and content are not blank and there is a tag; each failure has its message, checked in that order |
| AskQuestionPage.Planned | src/pages/ask-question.tsx:81-94 | every `createTag`, then `createQuestion`, then every `incrementTagQuestionCount` |
| AskQuestionPage.Submit | src/pages/ask-question.tsx:52-104 | an invalid form or a missing user makes no call; otherwise the planned calls run in order up to and including the first that throws |
| RegisterPage.RegisterCheck | src/pages/register.tsx:22-56 | the form passes exactly when all six checks do; the first failing check's message is shown |
| RegisterPage.Request | src/pages/register.tsx:61-66 | the fields as typed; the display name falls back to the username |
| RegisterPage.Submit | src/pages/register.tsx:18-77 | a refused form sends nothing and leaves the session alone; otherwise the request goes to `register`, with a welcome on success and the rethrown message on failure |
| RegisterPage.PageShowsServiceMessage | src/pages/register.tsx:72-73 | the rethrown message is never empty, so the page's own fallback text is never shown |
| RegisterPage.AcceptedPasswordHasEightBytes | src/pages/register.tsx:46-50 | an accepted password also has at least 8 UTF-8 bytes, the backend's minimum |
| RegisterPage.BlankUsernamePasses | src/pages/register.tsx:22-26 | a username of spaces only passes the page's checks |
| LoginPage.LoginCheck | src/pages/login.tsx:23-39 | the form passes exactly when the email is present, the password is present and the email has an '@'; checked in that order |
| LoginPage.From | src/pages/login.tsx:17 | the path the user came from, or "/"; never empty |
| LoginPage.Target | src/pages/login.tsx:44 | `from` alone decides, so "/questions" is reached only when it was the origin |
| LoginPage.Submit | src/pages/login.tsx:19-52 | a refused form sends nothing; otherwise the request goes to `login`, with a welcome and `from` on success, and the rethrown message plus the fixed toast on failure |
| LoginPage.NoOriginGoesToRoot | src/pages/login.tsx:17 | without an origin a login goes to "/", so the `'/questions'` fallback is dead |
| ChangePasswordPage.WithField | src/pages/change-password.tsx:36-39 | only the named field takes the value |
| ChangePasswordPage.FormErrors | src/pages/change-password.tsx:49-77 | each field's error exactly when its check fails; the errors for the new password exclude each other |
| ChangePasswordPage.ChangePasswordPage.constructor | src/pages/change-password.tsx:13-23 | empty form and no errors |
| ChangePasswordPage.ChangePasswordPage.HandleChange | src/pages/change-password.tsx:34-47 | the field takes the value and its error is cleared |
| ChangePasswordPage.ChangePasswordPage.ValidateForm | src/pages/change-password.tsx:49-77 | the errors become `FormErrors(form)`, and the form is valid exactly when it is acceptable |
| ChangePasswordPage.ChangePasswordPage.HandleSubmit | src/pages/change-password.tsx:78-125 | an invalid form sends nothing; without a user the page goes to sign in; otherwise the request is sent, the backend's answer is ignored, the user with a new last-login time is handed to the missing `setUser`, and the page shows that call's `TypeError` |
| ChangePasswordPage.Outcome | src/pages/change-password.tsx:78-125 | a refused form, no user, success exactly when storing the user does not throw, or the thrown message with its fallback |
| ChangePasswordPage.ChangeReportedAsFailure | src/pages/change-password.tsx:101-122 | a change the backend makes is reported as the `setUser` failure |
| ChangePasswordPage.ChangeReportedWithSetUser | src/pages/change-password.tsx:108-119 | with a working `setUser`, a valid form by a signed-in user is reported as changed, with a move to "/profile" |
| ChangePasswordPage.PageAcceptsWhatBackendRefuses | src/pages/change-password.tsx:62-68 | a 6-character password passes the page while the backend refuses it as too short |
| ChangePasswordPage.PageRefusesWhatBackendAccepts | src/pages/change-password.tsx:62-68 | two astral characters are 8 bytes for the backend but 4 units for the page |
| QuestionDetailPage.MapQuestion | src/pages/question-detail.tsx:32-52 | which response fields land in which page field; the email is blank and down-votes are 0 |
| QuestionDetailPage.MapAnswer | src/pages/question-detail.tsx:54-71 | the same for answers, with `isCorrect` from `is_accepted` |
| QuestionDetailPage.MapQuestionForgets | src/pages/question-detail.tsx:32-52 | the update time, the closed flag, the answer count and most of the author are dropped |
| QuestionDetailPage.VoteTableEntries | src/pages/question-detail.tsx:92-107 | one entry per answer id, holding that answer's vote lookup |
| QuestionDetailPage.WithVotes | src/pages/question-detail.tsx:212-224 | the answer with that id takes the new count, and every other answer stays |
| QuestionDetailPage.WithVotesLastWins | src/pages/question-detail.tsx:212-224 | a later count replaces an earlier one |
| QuestionDetailPage.WithVotesCommute | src/pages/question-detail.tsx:212-224 | updates of two different answers commute |
| QuestionDetailPage.Performed | src/pages/question-detail.tsx:129-284 | the calls that ran are a prefix of the planned calls and end at the first throw |
| QuestionDetailPage.QuestionDetail.constructor | src/pages/question-detail.tsx:17-30 | the initial state: nothing loaded, loading, no votes |
| QuestionDetailPage.QuestionDetail.Fetch | src/pages/question-detail.tsx:73-127 | the mapped question and answers, or the load error; for a signed-in user, the vote table of the answers |
| QuestionDetailPage.QuestionDetail.HandleAnswerSubmit | src/pages/question-detail.tsx:129-153 | ignored while submitting or for blank content; without a user, a toast; otherwise create and then refresh, with the answers refreshed only on success |
| QuestionDetailPage.QuestionDetail.HandleQuestionVote | src/pages/question-detail.tsx:155-197 | without a user, a toast; otherwise the vote, the count and the user's vote, each shown as far as the calls succeeded |
| QuestionDetailPage.QuestionDetail.HandleAnswerVote | src/pages/question-detail.tsx:199-248 | the same for one answer; no other answer changes |
| QuestionDetailPage.QuestionDetail.HandleAcceptAnswer | src/pages/question-detail.tsx:250-284 | only the signed-in author of the question may accept; a success toast exactly when accept and refresh both return |
| ProfilePage.Answered | src/pages/profile.tsx:44-50 | the number of answered questions, at most the number of questions |
| ProfilePage.AcceptedEstimate | src/pages/profile.tsx:52 | `min(floor(0.7 n), 10)`: capped at 10, reached exactly from 15 questions |
| ProfilePage.StatsBounds | src/pages/profile.tsx:41-60 | answered ≤ questions, and the accepted estimate is at most 10 and at most the number of questions |
| ProfilePage.Recent | src/pages/profile.tsx:62-65 | the first five questions, converted in order |
| ProfilePage.ProfileView.constructor | src/pages/profile.tsx:14-25 | zero figures, no questions, loading |
| ProfilePage.ProfileView.Load | src/pages/profile.tsx:27-74 | without a user, go to "/login"; otherwise the figures and the recent list from the questions, or nothing changed on an error |
| EditProfilePage.InitialForm | src/pages/edit-profile.tsx:40-45 | the form holds the user's fields, with '' for a missing bio |
| EditProfilePage.WithField | src/pages/edit-profile.tsx:110-116 | only the named field takes the value |
| EditProfilePage.BioOf | src/pages/edit-profile.tsx:130 | an empty bio is sent as missing |
| EditProfilePage.Request | src/pages/edit-profile.tsx:128-132 | the display name always, the bio unless empty, never an avatar |
| EditProfilePage.Merged | src/pages/edit-profile.tsx:134-158 | username and email come from the form; display name, bio and avatar come from the backend's answer, or from the form on a failure |
| EditProfilePage.PendingNonNegative | src/pages/edit-profile.tsx:83-85 | the pending slice is never negative, and the slices add up to the number of questions |
| EditProfilePage.AnsweredSliceCanBeNegative | src/pages/edit-profile.tsx:83-85 | ten unanswered questions give an answered slice of −7 |
| EditProfilePage.EditProfile.constructor | src/pages/edit-profile.tsx:13-32 | an empty form, no figures, not saving |
| EditProfilePage.EditProfile.Load | src/pages/edit-profile.tsx:34-76 | without a user, go to "/login"; otherwise the form from the user and the figures from the questions |
| EditProfilePage.EditProfile.HandleChange | src/pages/edit-profile.tsx:110-116 | the form takes the field's value and nothing else changes |
| EditProfilePage.EditProfile.HandleSubmit | src/pages/edit-profile.tsx:117-173 | without a user, go to "/login"; otherwise the request is sent, the merged user is handed to the missing `setUser`, and the page always shows "Failed to update profile" |
| EditProfilePage.Outcome | src/pages/edit-profile.tsx:117-173 | no user, success exactly when storing the user does not throw, or the fixed failure toast |
| EditProfilePage.SavedProfileReportedAsFailure | src/pages/edit-profile.tsx:138-169 | a profile the backend updates to the form's display name is reported as a failure |
| EditProfilePage.SavedProfileReportedWithSetUser | src/pages/edit-profile.tsx:150-166 | with a working `setUser`, the same update is reported as saved, and the user kept has the display name the backend stored |
| EditProfilePage.EmptiedBioIsKept | src/pages/edit-profile.tsx:130 | emptying the bio sends no bio, so the backend keeps the stored one |
| EditProfilePage.BlankNameRefusedButMerged | src/pages/edit-profile.tsx:139-169 | the backend refuses a blank display name, the fallback puts it in the user handed to `setUser`, and the page ends with the failure toast |

## Left out

- SeaORM, SQLite and `async`: each query is a function over the tables, and each transaction is one method call. Concurrency between commands is not modelled.
- argon2: a hash verifies exactly its own password. Salts, the hash format and hashing failures are not modelled.
- JWT tokens, `chrono` timestamps and their formatting: a time is an integer parameter.
- A database error other than a constraint violation (I/O, a locked file) cannot happen in the model.
- 32-bit ids and counters (`i32`) and the `u32` paging fields (question_models.rs:46-47) are unbounded integers. Overflow is not modelled, including a `(page - 1) * per_page` beyond `u32` (question_repository.rs:110).
- QuestionHandlers.ListQuestions: requires a page other than 0. In the source, page 0 underflows `(page - 1) * per_page` in `u32`.
- Store.ValidTables: the foreign keys of the migrations are not modelled. They point from the user column of questions, answers, comments, votes and bookmarks to `users`, from `answers.question_id` to `questions`, and from `question_tags` to `questions` and `tags`. SQLite as SeaORM opens it enforces them, so an insert that breaks one fails with a database error and writes nothing. The cascading deletes they declare are not modelled either; no modelled operation deletes a user, question or tag.
- AnswerRepository.CreateAnswerSpec: for a missing author or a missing question the model inserts the answer. The source's insert fails on the foreign key and nothing is written. For a missing author the model reports "User not found" with the row kept.
- QuestionRepository.CreateQuestionSpec: for a missing author the model commits the question and reports "User not found". The source's insert fails on the foreign key.
- CommentRepository.CreateCommentSpec: for a missing author the model inserts the comment and reports "User not found". The source's insert fails on the foreign key.
- VoteRepository.CreateVoteSpec: a new vote by a missing user is inserted in the model. The source's insert fails on the foreign key.
- BookmarkRepository.CreateBookmarkSpec: always succeeds in the model. For a missing user the source's insert fails on the foreign key.
- Strings.Contains: `search` is a plain substring test. SQL `LIKE '%q%'` (question_repository.rs:94-95) also treats `%` and `_` in the term as wildcards, and SQLite's `LIKE` ignores the case of ASCII letters.
- `get_question_by_id` does not increment `view_count`: the model follows the code (question_repository.rs:68-79).
- Strings.ToLower: lowers only ASCII letters. `toLowerCase()` also lowers other scripts.
- AskQuestionPage.AddTag: inherits the ASCII-only lower casing of `Strings.ToLower`.
- AskQuestionPage.OneCharacterNotLookedUp: stated only for characters of the Basic Multilingual Plane. An astral character is two UTF-16 units, so the search runs for it.
- Local storage holding text that is not JSON, and so makes `JSON.parse` throw, is not modelled.
- Tauri's `invoke` rejects with the plain string of the command's error, so `error.message` is then missing. The model leaves the message as a parameter.
- `userService.setUser` (change-password.tsx:112, edit-profile.tsx:160) and `userService.setGuest` (login.tsx:186-190, register.tsx:228-232) do not exist in user-service.ts. A call of `setUser` always throws `UserService.SetUserMissing`, whose message is V8's wording of the `TypeError`; other engines word it differently. The guest buttons are not modelled.
- The question, answer, tag, vote and user services the pages call are not part of this model. Their answers are parameters.
- Vote lookups in `fetchQuestionData` (question-detail.tsx:92-107) are modelled as never throwing. A throw there fails the whole load as any other error does.
- Rendering, animations, toast timing, `setTimeout` navigation delays, loading spinners and the chart's colours are not modelled.
- `Math.floor(n * 0.7)` in double precision equals the integer `7n / 10` for n ≤ 14. From 15 on, both are capped at 10.
- The `get_content_title` helper (bookmark_repository.rs:144-168) is never called from the modelled operations and is left out.

## Findings

| source | as written | input that shows it | evidently intended | confidence | as-written member | corrected member |
|---|---|---|---|---|---|---|
| src-tauri/src/repository/bookmark_repository.rs:217-224 | the length test counts UTF-8 bytes, but the cut takes characters | 150 copies of 'é': 300 bytes, so "..." is appended although nothing was cut | compare the number of characters with `max_length` | not executed | BookmarkRepository.TruncateAsWrittenMarksUncutText | BookmarkRepository.TruncateIsPreview |
| src/pages/change-password.tsx:112 | calls `userService.setUser`, which `UserService` does not define, so it throws after the backend call | any valid form by a signed-in user with the right current password and a new password of at least 8 bytes: the backend changes the password, and the page shows "userService.setUser is not a function" | store the user and report the change | not executed | ChangePasswordPage.ChangeReportedAsFailure | ChangePasswordPage.ChangeReportedWithSetUser |
| src/pages/edit-profile.tsx:160 | calls `userService.setUser`, which `UserService` does not define, so it throws after the backend call | any signed-in user with a non-blank display name: the backend updates the profile, and the page shows "Failed to update profile" | store the merged user and report the update | not executed | EditProfilePage.SavedProfileReportedAsFailure | EditProfilePage.SavedProfileReportedWithSetUser |
