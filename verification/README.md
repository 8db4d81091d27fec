# Diary backend: ownership and visibility, in Dafny

This project models the ownership and visibility rules of a Flask diary
service: users keep diaries, diaries hold entries, entries carry tags, and
users like and comment on entries. The model covers:

- the handlers of the entries, diaries, likes and comments blueprints;
- the tag operations of `Entry`;
- the public by-tag listing;
- the request-field sanitising (`TrimmedString`, `PrivacyStringField`);
- the cascades that run when a user, diary or entry is deleted;
- the unique email of a user.

The content store is an immutable value (`Models.Store`): one table per
model class, mapping primary keys to rows. Each table also records the next
key its id sequence hands out. An entry's `tags` is the list the ORM
relationship holds.

Every handler is a pure function `(store, caller, request) -> Reply`. A
reply carries the HTTP status, the store after the request, and the row or
id sent back. The caller is the id the JWT's email resolves to. An id
with no user row stands for a token whose user no longer exists; such a
token stays usable because `delete_user` needs no token. Every
error status leaves the store as it was (`Http.ErrorsChangeNothing`). The
order of the handlers' checks is part of each contract: 404 before 403,
and 403 before the 400 or 409 of the body or state checks. A caller with
no user row gets a 500 at the point where the handler first reads
`user.id` (`StaleTokens`).

`Models.Wf` is the well-formedness the database keeps:

- no two users share an email;
- no foreign key points at a missing row.

Lemmas show which handlers preserve it. Two invariants the application
itself is meant to keep are stated apart:

- `Models.OneLikePerUserAndEntry`: at most one like per user and entry;
- `Models.NoRepeatedTags`: no entry carries a tag twice.

The source's tag handlers change the tag list twice, so they break the
second invariant. See "Findings".

Modules, in dependency order:

| module | file | what |
|---|---|---|
| Wrappers | wrappers.dfy | `Option`, `Result` |
| Seqs | seqs.dfy | ordered id lists, `Filter`, counting distinct elements |
| Tables | tables.dfy | one table: lookup, insert, update, delete, filtered scan in key order |
| Fields | fields.dfy | JSON values, Python's `str.strip`, `TrimmedString` with the non-empty rule |
| Privacy | privacy.dfy | `PrivacyOptions`, `str.upper`, `PrivacyStringField` |
| Models | models.dfy | rows, store, invariants, relationships, cascades |
| Http | http.dfy | statuses and replies |
| Schemas | schemas.dfy | loading the request bodies |
| EntryTags | entry_tags.dfy | `Entry.add_tag`, `Entry.remove_tag`, `list.remove` |
| EntriesController | entries_controller.dfy | the `/entries` handlers, as written and as intended |
| DiariesController | diaries_controller.dfy | the `/diaries` handlers |
| LikesController | likes_controller.dfy | the `/likes` handlers |
| CommentsController | comments_controller.dfy | the `/comments` handlers |
| Visibility | visibility.dfy | how diary privacy and the by-tag listing meet |
| StaleTokens | stale_tokens.dfy | every handler that takes a caller, facing a caller with no user row |

Some behaviour comes from the frameworks and is modelled explicitly:

- **Null fields.** Marshmallow refuses a null before a field's own reader
  runs, so a null `privacy` is a 400. The reader's own "null stays null"
  branch is modelled by `Privacy.Deserialize` but is never reached on load.
- **Exceptions.** An exception no error handler of the blueprint catches
  becomes a 500 (`ServerError`). The model has four of these:
  - the `AttributeError` of `user.id` when the caller has no user row
    (`Models.KnownUser`);
  - the `ValueError` of the second `list.remove` in `remove_tag`;
  - the `ValidationError` of a like body without `entry_id`, since the likes
    blueprint registers no handler for it;
  - `entry.diary` being missing, which only an ill-formed store allows.
- **Title length.** `diaries.title` is `String(255)`. On a database that
  enforces the width, such as PostgreSQL, a longer title fails at commit
  with a `DataError`, which the diaries blueprint answers with a 400. The
  model assumes such a database (see "Left out").

## Model

| member | source | states |
|---|---|---|
| Fields.TrimStart | schemas/common.py:7 | the result is a suffix of the input, everything cut off is whitespace, and the result does not start with whitespace |
| Fields.TrimEnd | schemas/common.py:7 | the result is a prefix of the input, everything cut off is whitespace, and the result does not end with whitespace |
| Fields.Strip | schemas/common.py:5-8 | `str.strip()`: the result neither starts nor ends with a whitespace character and is no longer than the input |
| Fields.StripCutsWhitespaceEnds | schemas/common.py:7 | the stripped string is the infix of the input between a whitespace-only prefix and a whitespace-only suffix |
| Fields.StripIdempotent | schemas/common.py:7 | stripping a stripped string changes nothing |
| Fields.StripEmptyIffAllSpace | schemas/common.py:7 | a string strips to "" exactly when it consists of whitespace only |
| Fields.StripValue | schemas/common.py:5-8 | a string value is replaced by its stripped form; any other value passes through unchanged |
| Fields.LoadText | schemas/common.py:5-8 | a required trimmed field with `Length(min=1)`: loads exactly when the value is a string with a non-whitespace character, and yields it stripped; missing, null, non-string and blank values each fail with their own error |
| Privacy.FromValue | models/diaries.py:6-8 | the enum has exactly two values, PRIVATE and PUBLIC; lookup succeeds exactly on their names |
| Privacy.FromValueInvertsName | models/diaries.py:6-8 | looking a member's value up gives that member, and only its value does |
| Privacy.Upper | schemas/diaries.py:18 | upper-casing keeps the length, leaves no ASCII lower-case letter, never changes an upper-case letter, digit or space, and changes a character only into an ASCII upper-case letter |
| Privacy.UpperIdempotent | schemas/diaries.py:18 | upper-casing an upper-cased string changes nothing |
| Privacy.Serialize | schemas/diaries.py:8-11 | nothing serialises to nothing; a member serialises to a string that looks back up to that member |
| Privacy.Deserialize | schemas/diaries.py:13-22 | null reads as nothing; a string reads successfully exactly when its upper case is PUBLIC or PRIVATE, as that member; every failure carries the message naming the allowed values |
| Privacy.DeserializeSerialize | schemas/diaries.py:8-18 | reading back a serialised privacy gives the same privacy |
| Privacy.DeserializeIgnoresCase | schemas/diaries.py:18 | any casing of "public" or "private" reads as the matching member |
| Privacy.InvalidMessageNamesChoices | schemas/diaries.py:19-22 | the validation message names both PUBLIC and PRIVATE |
| Schemas.LoadEntry | schemas/entries.py:13-17 | an entry body loads exactly when `content` is a non-blank string and `diary_id` is present; content is stored stripped |
| Schemas.LoadComment | schemas/comments.py:12-15 | a comment body loads exactly when `content` is a non-blank string and `entry_id` is present; content is stored stripped |
| Schemas.LoadLike | schemas/likes.py:12 | a like body loads exactly when `entry_id` is present |
| Schemas.LoadPrivacy | schemas/diaries.py:37 | an absent privacy stays absent, a null one is refused, anything else goes through the field's reader and never reads as absent |
| Schemas.LoadDiary | schemas/diaries.py:31-37 | a diary body loads exactly when the title is a non-blank string and the privacy loads; the title is stored stripped, and a privacy read is the upper-cased string's member |
| Schemas.LoadTagName | schemas/tags.py:12-13 | a tag name loads exactly when it is a non-blank string, stripped |
| Schemas.BlankTextRejected | schemas/common.py:5-8 | a whitespace-only title, entry content, comment or tag name is refused by the length rule with that field's own message |
| Schemas.NonBlankTextAccepted | schemas/diaries.py:31-35 | a title or tag name with a non-whitespace character loads, as its stripped form |
| Seqs.Filter | controllers/entries_controllers.py:257-258 | the filtered list keeps exactly the elements satisfying the condition |
| Seqs.FilterKeepsIncreasing | controllers/entries_controllers.py:257-258 | filtering keeps the list's order |
| Models.EntryOwnerIsDiaryOwner | models/entries.py:10-17 | `entry.diary.user_id` exists exactly when some existing diary lists the entry among its `entries`, and it is the user owning that diary |
| Models.WfEntryHasOwner | models/entries.py:10-11 | in a well-formed store every entry has an owner |
| Models.EntriesOfDiary | models/diaries.py:27-32 | `diary.entries` lists exactly the entries whose `diary_id` is the diary, in key order |
| Models.EntriesCount | models/diaries.py:38-39 | `entries_count` is the number of entries whose `diary_id` is the diary |
| Models.EntriesOfTag | models/tags.py:10-15 | `tag.entries` lists exactly the entries carrying the tag, in key order |
| Models.LikesOfEntry | models/entries.py:35-40 | `entry.likes` lists exactly the likes whose `entry_id` is the entry, in key order |
| Models.InsertUser | models/users.py:8 | a user is added exactly when no user has the email, under a fresh id, and nothing else changes |
| Models.InsertUserKeepsWf | models/users.py:8 | adding a user keeps emails unique and the store well formed |
| Models.DeleteEntryCascade | models/entries.py:27-40 | deleting an entry removes it, exactly its comments and exactly its likes; every other row is kept unchanged |
| Models.DeleteEntryKeepsWf | models/entries.py:27-40 | the entry cascade leaves no dangling reference and keeps both application invariants |
| Models.DeleteDiaryCascade | models/diaries.py:27-32 | deleting a diary removes it, exactly its entries, and the comments and likes on those entries |
| Models.DeleteDiaryKeepsWf | models/diaries.py:27-32 | the diary cascade leaves no dangling reference and keeps both application invariants |
| Models.DeleteUserCascade | models/users.py:12-29 | deleting a user removes the user, their diaries, the entries in those diaries, and their own and those entries' comments and likes |
| Models.DeleteUserLeavesNoReference | models/users.py:12-29 | after the user cascade no row refers to the user, every entry of their diaries is gone, and the store is well formed |
| EntryTags.RemoveFirst | models/entries.py:51 | removing an absent element changes nothing; removing a present one shortens the list by one |
| EntryTags.RemoveFirstMultiset | models/entries.py:51 | removal takes away one occurrence and keeps every other element |
| EntryTags.RemoveFirstCutsFirstOccurrence | models/entries.py:51 | removal cuts out exactly the first occurrence; the elements before and after keep their order |
| EntryTags.ListRemove | models/entries.py:51 | `list.remove` raises exactly when the element is absent, and otherwise cuts out its first occurrence, keeping the rest in order |
| EntryTags.AddTag | models/entries.py:42-46 | `add_tag` reports false and changes nothing when the tag is on the list; otherwise it reports true and appends the tag after the unchanged old list |
| EntryTags.RemoveTag | models/entries.py:48-52 | `remove_tag` reports false and changes nothing when the tag is absent; otherwise it reports true and cuts out the tag's first occurrence, keeping the rest in order |
| EntryTags.AddThenRemoveRestores | models/entries.py:42-52 | a successful `add_tag` followed by `remove_tag` gives back the original list |
| EntryTags.AddTagKeepsNoDuplicates | models/entries.py:42-46 | `add_tag` on its own never repeats a tag |
| EntryTags.RemoveTagClearsTag | models/entries.py:48-52 | on a list without repetitions a successful `remove_tag` leaves the tag absent |
| EntryTags.RemoveTagKeepsNoDuplicates | models/entries.py:48-52 | `remove_tag` keeps a list free of repetitions |
| EntriesController.EntryAccess | controllers/entries_controllers.py:77-88 | the single-entry checks: 404 exactly for a missing entry, then 500 exactly when the entry's diary is missing or the caller has no user row (`user.id` on `None`), then 403 exactly when someone else owns the diary, through exactly for the owner; in a well-formed store the 500 comes only from a caller with no user row |
| EntriesController.GetEntries | controllers/entries_controllers.py:45-65 | 404 exactly for a missing diary, then 500 exactly for a caller with no user row, then 403 exactly for another user's diary; otherwise exactly the diary's entries, in key order |
| EntriesController.GetEntry | controllers/entries_controllers.py:74-88 | 404 exactly for a missing entry, 500 exactly when the ownership check raises, 403 exactly for another existing user, the entry exactly for its owner, whatever the diary's privacy |
| EntriesController.CreateLoadedEntry | controllers/entries_controllers.py:97-118 | 404 for a missing diary, then 500 for a caller with no user row, then 403 for another user's diary; otherwise an untagged entry is added under a fresh id; every error changes nothing |
| EntriesController.CreateEntry | controllers/entries_controllers.py:99-118 | a body that fails to load is a 400 whatever the diary; otherwise the loaded entry is created as above |
| EntriesController.CreateEntryKeepsWf | controllers/entries_controllers.py:104-112 | creating an entry keeps the store well formed and no tag list repeated |
| EntriesController.UpdateEntry | controllers/entries_controllers.py:127-145 | 404, then 500 when the ownership check raises, then 403, then 400 for a bad body; on success only the content changes, to the stripped new content, and the diary and tags stay |
| EntriesController.UpdateEntryKeepsWf | controllers/entries_controllers.py:133-136 | updating an entry keeps the store well formed and no tag list repeated |
| EntriesController.DeleteEntry | controllers/entries_controllers.py:154-170 | 404, then 500 when the ownership check raises, then 403; the owner's request runs the entry cascade, after which no comment or like points at the entry |
| EntriesController.DeleteEntryHandlerKeepsWf | controllers/entries_controllers.py:159-163 | deleting an entry keeps the store well formed |
| EntriesController.TagAccess | controllers/entries_controllers.py:179-197 | the tag handlers' checks in order: missing entry or tag 404, then 500 when the ownership check raises, then 403 for another existing user |
| EntriesController.AddTag | controllers/entries_controllers.py:173-208 | as written: 404, 404, 500 when the ownership check raises, 403, then 409 exactly when the tag is already on the entry; on success the entry's tags are the old list followed by the tag twice, and nothing else changes |
| EntriesController.AddTagKeepsWf | controllers/entries_controllers.py:199-206 | the handler as written still keeps the store well formed |
| EntriesController.AddTagStoresTagTwice | controllers/entries_controllers.py:199-205 | as written, a successful add leaves the tag on the entry exactly twice, so the list has a repetition |
| EntriesController.RemoveAgain | controllers/entries_controllers.py:243 | the handler's own `list.remove` raises exactly when the tag occurred once before `remove_tag`; otherwise it cuts the first occurrence out of what `remove_tag` left, so two occurrences are gone in all |
| EntriesController.RemoveTagTwice | controllers/entries_controllers.py:237-246 | after the checks: 400 exactly when the tag is absent, 500 exactly when it occurs once, success exactly when it occurs at least twice; the entry then keeps its tags in order with the first two occurrences cut out |
| EntriesController.RemoveSecond | controllers/entries_controllers.py:243-246 | the second `list.remove` on the entry: 500 with nothing committed exactly when the tag occurred once; otherwise only that entry changes, losing the first occurrence of the tag in what `Entry.remove_tag` left |
| EntriesController.RemoveTag | controllers/entries_controllers.py:211-246 | as written: 404, 404, 500 when the ownership check raises, 403, then the double removal above; a 500 comes exactly from the ownership check or from a tag the caller's entry carries once |
| EntriesController.RemoveTagFailsOnSingleTag | controllers/entries_controllers.py:237-243 | as written, removing a tag that an entry without repeated tags carries is a 500 that changes nothing |
| EntriesController.AddThenRemoveRestoresAsWritten | controllers/entries_controllers.py:199-246 | as written, in the model's tag list (the list the relationship holds in the session): removing a tag just added succeeds and restores the store, because the two double operations cancel |
| EntriesController.AddTagIntended | controllers/entries_controllers.py:199-208 | as intended: the same checks, 500 and 409; on success the tag is appended once |
| EntriesController.AddTagIntendedKeepsInvariants | models/entries.py:42-46 | the intended add leaves the tag on the entry exactly once and keeps the store well formed and free of repeated tags |
| EntriesController.AddTagIntendedTwiceConflicts | controllers/entries_controllers.py:199-203 | with the intended add, adding the same tag again is a 409 that changes nothing |
| EntriesController.RemoveTagIntended | controllers/entries_controllers.py:211-246 | as intended: the same checks and 500; 400 exactly when the tag is absent; otherwise the tag's first occurrence is cut out, the rest keeps its order, and nothing else changes |
| EntriesController.TakeTagOff | models/entries.py:48-52 | after the checks of the intended handler: 400 exactly when the entry lacks the tag, otherwise only that entry changes, losing the first occurrence of the tag |
| EntriesController.RemoveTagIntendedClearsTag | models/entries.py:48-52 | on a store without repeated tags, removing a tag the owner's entry carries succeeds: the intended removal takes the tag off the entry and keeps the store free of repeated tags |
| EntriesController.AddThenRemoveIntendedRestores | models/entries.py:42-52 | with the intended handlers, removing a tag just added succeeds and gives back the store as it was |
| EntriesController.GetEntriesByTag | controllers/entries_controllers.py:249-263 | 404 exactly for a missing tag; otherwise exactly the tag's entries whose diary is public, in order, never an entry of a private diary; no 500 in a well-formed store |
| DiariesController.GetDiaries | controllers/diaries_controllers.py:44-50 | 500 exactly for a caller with no user row; otherwise exactly the diaries whose `user_id` is the caller, in key order |
| DiariesController.DiaryAccess | controllers/diaries_controllers.py:59-73 | the single-diary checks: 404 exactly for a missing diary, then 500 exactly for a caller with no user row, then 403 exactly for another user's diary |
| DiariesController.GetDiary | controllers/diaries_controllers.py:59-73 | 404, 500 for a caller with no user row, 403, or the diary for its owner; the store is unchanged |
| DiariesController.CreateLoadedDiary | controllers/diaries_controllers.py:85-92 | with a loaded body: 500 exactly for a caller with no user row, then 400 exactly for a title over 255 characters; otherwise the new diary is added under a fresh id and nothing else changes |
| DiariesController.CreateDiary | controllers/diaries_controllers.py:84-92 | 400 when the body fails to load; then 500 for a caller with no user row; then 400 for a title over 255 characters (models/diaries.py:15); otherwise one diary is added under a fresh id and nothing else changes |
| DiariesController.CreatedDiaryFollowsRequest | controllers/diaries_controllers.py:84-86 | the new diary is the caller's whatever the body says; its title is the stripped body title; its privacy is PRIVATE unless the body names one, in any casing |
| DiariesController.CreateDiaryKeepsSerialisedPrivacy | controllers/diaries_controllers.py:84-85 | a privacy serialised by the schema and sent back in a body is stored as that privacy |
| DiariesController.CreateDiaryKeepsWf | controllers/diaries_controllers.py:85-89 | a diary is created only for an existing caller, so the store stays well formed whoever calls |
| DiariesController.ApplyLoadedUpdate | controllers/diaries_controllers.py:109-114 | with a loaded body: 400 exactly for a title over 255 characters, changing nothing; otherwise the title is overwritten, the privacy kept unless one is supplied, and only that diary changes |
| DiariesController.ApplyDiaryUpdate | controllers/diaries_controllers.py:108-114 | after the access checks: 400 exactly when the body fails to load or the title is too long; a loaded body is applied as above |
| DiariesController.UpdateDiary | controllers/diaries_controllers.py:101-121 | 404, then 500 for a caller with no user row, then 403, then the update above; every error leaves the store unchanged |
| DiariesController.UpdatedDiaryFollowsRequest | controllers/diaries_controllers.py:108-111 | after an update the title is the stripped body title, the privacy is unchanged when the body has none, and the owner is unchanged |
| DiariesController.UpdateDiaryIdempotent | controllers/diaries_controllers.py:108-112 | sending the same update twice leaves the same store and reply as sending it once |
| DiariesController.UpdateDiaryKeepsWf | controllers/diaries_controllers.py:108-112 | updating a diary keeps the store well formed |
| DiariesController.DeleteDiary | controllers/diaries_controllers.py:130-146 | 404, then 500 for a caller with no user row, then 403; the owner's request removes exactly that diary and runs the diary cascade, so no entry of it remains |
| DiariesController.DeleteDiaryHandlerKeepsWf | controllers/diaries_controllers.py:136-139 | deleting a diary keeps the store well formed |
| LikesController.GetLikes | controllers/likes_controllers.py:38-46 | 404 exactly for a missing entry; otherwise exactly the likes with that `entry_id`, in key order |
| LikesController.GetLike | controllers/likes_controllers.py:53-59 | 404 exactly for a missing like, else the like |
| LikesController.AlreadyLiked | controllers/likes_controllers.py:76 | the scan of the entry's likes finds one exactly when the caller already likes the entry |
| LikesController.CreateLike | controllers/likes_controllers.py:68-90 | a 500 for a body without `entry_id`, then 404 for a missing entry, then 500 for a caller with no user row, then 409 when the caller already likes it; otherwise one like of the caller on that entry is added |
| LikesController.CreateLikeKeepsOneLike | controllers/likes_controllers.py:76-85 | at most one like per user and entry holds after `create_like` if it held before, and liking again is a 409 that changes nothing |
| LikesController.CreateLikeKeepsWf | controllers/likes_controllers.py:81-85 | a like is stored only for an existing caller, so the store stays well formed whoever calls |
| LikesController.DeleteLike | controllers/likes_controllers.py:99-115 | 404 exactly for a missing like, then 500 for a caller with no user row, then 403 exactly for someone else's; otherwise exactly that like is removed |
| LikesController.DeleteLikeKeepsInvariants | controllers/likes_controllers.py:104-108 | removing one's like keeps the store well formed and one like per user and entry, and the caller no longer likes the entry |
| CommentsController.GetComments | controllers/comments_controllers.py:43-52 | 404 exactly for a missing entry; otherwise exactly the comments with that `entry_id`, in key order |
| CommentsController.GetComment | controllers/comments_controllers.py:59-65 | 404 exactly for a missing comment, else the comment |
| CommentsController.PostComment | controllers/comments_controllers.py:78-90 | 404 exactly for a missing entry, then 500 for a caller with no user row; otherwise one comment of the caller is added, with no ownership or privacy check |
| CommentsController.CreateComment | controllers/comments_controllers.py:75-90 | a body that fails to load is a 400 before any lookup; otherwise as above |
| CommentsController.AnyoneMayComment | controllers/comments_controllers.py:78-88 | any existing user may comment on any existing entry, private diary or not, and the comment is the caller's with the stripped content |
| CommentsController.CreateCommentKeepsWf | controllers/comments_controllers.py:80-85 | a comment is stored only for an existing caller, so the store stays well formed whoever calls |
| CommentsController.CommentAccess | controllers/comments_controllers.py:101-118 | 404 exactly for a missing comment, then 500 for a caller with no user row, then 403 exactly when the caller is not its author |
| CommentsController.UpdateComment | controllers/comments_controllers.py:99-118 | 404, then 500 for a caller with no user row, then 403, then 400 for a bad body; on success only the content changes |
| CommentsController.UpdateCommentKeepsAuthorAndEntry | controllers/comments_controllers.py:105-108 | after an update the author and the entry are unchanged, whatever `entry_id` the body names, and the content is the stripped new content |
| CommentsController.UpdateCommentKeepsWf | controllers/comments_controllers.py:106-108 | updating a comment keeps the store well formed |
| CommentsController.DeleteComment | controllers/comments_controllers.py:127-145 | 404, then 500 for a caller with no user row, then 403 for anyone but the author; otherwise exactly that comment is removed |
| CommentsController.DeleteCommentKeepsWf | controllers/comments_controllers.py:132-136 | deleting a comment keeps the store well formed |
| Visibility.PrivateEntriesNeverListed | controllers/entries_controllers.py:255-258 | an entry of a private diary is never in the by-tag listing |
| Visibility.PublishingListsEntries | controllers/diaries_controllers.py:108-112 | once `update_diary` makes a diary public, each of its entries appears in the listing of every existing tag it carries |
| Visibility.UnpublishingHidesEntries | controllers/diaries_controllers.py:110-111 | once `update_diary` makes a diary private, none of its entries is listed under any tag |
| Visibility.PublicEntriesStayOwnerOnly | controllers/entries_controllers.py:79-88 | after any diary update, `get_entry` answers 403 to every other existing user (500 to a caller with no user row) and 200 to the owner, public diary or not |
| StaleTokens.Handle | controllers/entries_controllers.py:74-80 | every handler that takes a caller, behind one request type; an error leaves the store as it was |
| StaleTokens.UnknownCallerChangesNothing | controllers/comments_controllers.py:80-82 | a caller with no user row gets 404, 400 or 500 from every handler, never a success, 403 or 409, and the store is unchanged |
| StaleTokens.DeletedUserChangesNothing | controllers/users_controllers.py:98-107 | after `delete_user`, which needs no token, a token still naming that user changes nothing and never succeeds |

## Left out

- Authentication is not modelled: JWT issue and verification, and bcrypt hashing and checking. The caller is the user id the token's email resolves to, given to every handler; an id with no user row stands for an email with none. The email lookup itself is not modelled.
- User CRUD, tag CRUD and the login handlers are not modelled. `Schemas.LoadTagName` keeps only the tag-name rule. The unique `String(100)` tag name and the password `min=6` rule are not modelled.
- Flask routing, response bodies and error messages are not modelled. A reply carries only the status, the store, and the row or id sent back. Nested schema dumps are not modelled.
- Marshmallow reports the errors of every field at once; the model reports the first failing field only. Some loader behaviour is not modelled:
  - the coercion of numeric strings in `fields.Int`, since integer fields arrive as integers;
  - the rejection of unknown fields.
  - the nested relationship fields the schemas declare (`tags`, `diary`, `entries`, `user`, `entry`, `comments`, `likes`). A request body carrying one either fails the nested schema or reaches the model's constructor as a dict, which the ORM rejects, so the source answers 400 (500 in the likes blueprint) or 500. The model's body types cannot hold these fields, so it answers such bodies as if the field were absent.
- The app-level error handlers of `main.py` are not part of this model. For a like body without `entry_id` the model follows the blueprint, which registers no `ValidationError` handler, and answers 500.
- Timestamps (`date_created`), `commands.py` and `config.py` are not modelled.
- DiariesController.CreateLoadedDiary: assumes a database that enforces the `String(255)` width of `diaries.title`, such as PostgreSQL. On the default `sqlite:///site.db` (config.py:7) SQLite does not enforce it: a longer title is stored and `create_diary` answers 201. The same holds for `DiariesController.CreateDiary`.
- DiariesController.ApplyLoadedUpdate: assumes the same database; on SQLite a longer title is stored and `update_diary` answers 200. The same holds for `DiariesController.ApplyDiaryUpdate` and `DiariesController.UpdateDiary`.
- SQLAlchemy sessions are not modelled: flush, rollback, and whether a tag appended twice becomes two `entry_tags` rows. The model keeps the Python list the relationship holds in the session.
- EntriesController.AddThenRemoveRestoresAsWritten: holds for the model's list, which a later request sees unchanged. In the source the commit expires the session, so the next request reloads `entry.tags` from `entry_tags`. That table has a surrogate key and no unique constraint, so `[t, t]` plausibly persists as two rows. The reload then plausibly lists `t` once, and the next `remove_tag` then plausibly hits the 500 of the second `remove`. This path is not modelled.
- Relationship lists such as `tag.entries`, `diary.entries` and `entry.likes` have no `order_by`. They are modelled in primary-key order.
- Privacy.Upper: maps a-z, dotless i and long s, and keeps every other character. Python's `str.upper` also changes other characters, and some of them into several (`ß` becomes `SS`), but none of them upper-cases to a string that spells PUBLIC or PRIVATE, so which strings read as a member does not change.

## Findings

| source | as written | input that shows it | evidently intended | confidence | as-written member | corrected member |
|---|---|---|---|---|---|---|
| controllers/entries_controllers.py:205 | the handler appends the tag to `entry.tags` again after `Entry.add_tag` has appended it | an owned entry with no tags and an existing tag `t`: after the second append the session's tag list is `[t, t]`; what the database keeps is not modelled | the tag is appended once, leaving `[t]` | medium, not executed (whether the second append persists as a second `entry_tags` row is not modelled) | EntriesController.AddTagStoresTagTwice | EntriesController.AddTagIntended |
| controllers/entries_controllers.py:243 | the handler calls `entry.tags.remove(tag)` again after `Entry.remove_tag` has removed the tag | an owned entry with tags `[t]`: `Entry.remove_tag` leaves `[]`, and the second `remove` raises `ValueError`, answered with a 500 and nothing committed | one removal, a 200, and tags `[]` | high, not executed | EntriesController.RemoveTagFailsOnSingleTag | EntriesController.RemoveTagIntended |
