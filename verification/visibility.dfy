/** How the handlers of different blueprints meet: a diary's privacy, set
    through `update_diary`, decides which of its entries the public
    by-tag listing shows, and nothing else does. */
module Visibility {
  import opened Wrappers
  import opened Tables
  import opened Privacy
  import opened Models
  import opened Http
  import opened Schemas
  import opened EntriesController
  import opened DiariesController

  /** An entry of a private diary is never listed by tag, whoever asks. */
  lemma PrivateEntriesNeverListed(s: Store, tagId: Id, e: Id)
    requires e in s.entries.rows && s.entries.rows[e].diaryId in s.diaries.rows
    requires s.diaries.rows[s.entries.rows[e].diaryId].privacy == PRIVATE
    ensures GetEntriesByTag(s, tagId).status == Ok ==> e !in GetEntriesByTag(s, tagId).value.value
  {
  }

  /** Once `update_diary` has made a diary public, every entry of it that
      carries an existing tag is listed under that tag. */
  lemma PublishingListsEntries(s: Store, caller: Id, d: Id, b: DiaryBody, tagId: Id, e: Id)
    requires Wf(s)
    requires UpdateDiary(s, caller, d, b).status == Ok && LoadDiary(b).value.privacy == Some(PUBLIC)
    requires e in s.entries.rows && s.entries.rows[e].diaryId == d
    requires tagId in s.tags.rows && tagId in s.entries.rows[e].tags
    ensures var s' := UpdateDiary(s, caller, d, b).store;
      GetEntriesByTag(s', tagId).status == Ok && e in GetEntriesByTag(s', tagId).value.value
  {
    var s' := UpdateDiary(s, caller, d, b).store;
    UpdateDiaryKeepsWf(s, caller, d, b);
    assert s'.entries == s.entries && s'.diaries.rows[d].privacy == PUBLIC;
    assert EntryIsPublic(s', e);
  }

  /** Once `update_diary` has made a diary private, none of its entries is
      listed under any tag. */
  lemma UnpublishingHidesEntries(s: Store, caller: Id, d: Id, b: DiaryBody, tagId: Id, e: Id)
    requires UpdateDiary(s, caller, d, b).status == Ok && LoadDiary(b).value.privacy == Some(PRIVATE)
    requires e in s.entries.rows && s.entries.rows[e].diaryId == d
    ensures var s' := UpdateDiary(s, caller, d, b).store;
      GetEntriesByTag(s', tagId).status == Ok ==> e !in GetEntriesByTag(s', tagId).value.value
  {
    var s' := UpdateDiary(s, caller, d, b).store;
    assert s'.entries == s.entries && s'.diaries.rows[d].privacy == PRIVATE;
    PrivateEntriesNeverListed(s', tagId, e);
  }

  /** Making a diary public opens its entries to the by-tag listing only:
      `get_entry` still answers 403 to any other user (a 500 to a caller
      with no user row), and 200 to the owner. */
  lemma PublicEntriesStayOwnerOnly(s: Store, caller: Id, other: Id, d: Id, b: DiaryBody, e: Id)
    requires UpdateDiary(s, caller, d, b).status == Ok && other != caller
    requires e in s.entries.rows && s.entries.rows[e].diaryId == d
    ensures var s' := UpdateDiary(s, caller, d, b).store;
      && GetEntry(s', other, e).status == (if KnownUser(s, other) then Forbidden else ServerError)
      && GetEntry(s', caller, e).status == Ok
  {
    var s' := UpdateDiary(s, caller, d, b).store;
    assert s'.entries == s.entries && s'.diaries.rows[d].userId == caller;
  }
}
