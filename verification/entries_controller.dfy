/** The handlers of the `/entries` blueprint. Every handler on one entry
    resolves the ids first (404), then checks that the caller owns the
    entry's diary (403), and only then validates or mutates. */
module EntriesController {
  import opened Wrappers
  import opened Seqs
  import opened Tables
  import opened Fields
  import opened Models
  import opened Http
  import opened Schemas
  import EntryTags

  /** The entry's diary is missing, so `entry.diary.user_id` raises. */
  predicate Dangling(s: Store, entryId: Id) {
    entryId in s.entries.rows && EntryOwner(s, entryId).None?
  }

  /** The entry exists, its diary too, and someone else owns that diary. */
  predicate OwnedByOther(s: Store, caller: Id, entryId: Id) {
    EntryOwner(s, entryId).Some? && EntryOwner(s, entryId).value != caller
  }

  /** `entry.diary.user_id == user.id` raises on an existing entry: its
      diary is missing, or the caller has no user row. */
  predicate OwnerCheckRaises(s: Store, caller: Id, entryId: Id) {
    Dangling(s, entryId) || (entryId in s.entries.rows && !KnownUser(s, caller))
  }

  /** The checks the single-entry handlers run before anything else: the
      entry must exist, then its owner must be the caller. `None` lets the
      request through. */
  function EntryAccess(s: Store, caller: Id, entryId: Id): (r: Option<Status>)
    ensures r.None? <==> EntryOwnedBy(s, entryId, caller) && KnownUser(s, caller)
    ensures r == Some(NotFound) <==> entryId !in s.entries.rows
    ensures r == Some(ServerError) <==> OwnerCheckRaises(s, caller, entryId)
    ensures r == Some(Forbidden) <==> OwnedByOther(s, caller, entryId) && KnownUser(s, caller)
    ensures r.Some? ==> r.value.IsError()
    ensures Wf(s) ==> (r == Some(ServerError) <==> entryId in s.entries.rows && !KnownUser(s, caller))
  {
    if entryId !in s.entries.rows then Some(NotFound)
    else match EntryOwner(s, entryId)
      case None => Some(ServerError)
      case Some(owner) =>
        if !KnownUser(s, caller) then Some(ServerError)
        else if owner != caller then Some(Forbidden)
        else None
  }

  /** `get_entries`: the entries of one of the caller's diaries. */
  function GetEntries(s: Store, caller: Id, diaryId: Id): (r: Reply<seq<Id>>)
    ensures r.store == s
    ensures r.status == NotFound <==> diaryId !in s.diaries.rows
    ensures r.status == ServerError <==> diaryId in s.diaries.rows && !KnownUser(s, caller)
    ensures r.status == Forbidden <==>
              diaryId in s.diaries.rows && KnownUser(s, caller) && !OwnsDiary(s, caller, diaryId)
    ensures r.status == Ok <==> OwnsDiary(s, caller, diaryId) && KnownUser(s, caller)
    ensures r.status == Ok ==>
              && r.value.Some?
              && Increasing(r.value.value)
              && forall e :: e in r.value.value <==> EntryInDiary(s, e, diaryId)
  {
    if diaryId !in s.diaries.rows then Refuse(NotFound, s)
    else if !KnownUser(s, caller) then Refuse(ServerError, s)
    else if s.diaries.rows[diaryId].userId != caller then Refuse(Forbidden, s)
    else Reply(Ok, s, Some(EntriesOfDiary(s, diaryId)))
  }

  /** `get_entry`: an entry is shown to the owner of its diary only, public
      diary or not. */
  function GetEntry(s: Store, caller: Id, entryId: Id): (r: Reply<Entry>)
    ensures r.store == s
    ensures r.status == NotFound <==> entryId !in s.entries.rows
    ensures r.status == ServerError <==> OwnerCheckRaises(s, caller, entryId)
    ensures r.status == Forbidden <==> OwnedByOther(s, caller, entryId) && KnownUser(s, caller)
    ensures r.status == Ok <==> EntryOwnedBy(s, entryId, caller) && KnownUser(s, caller)
    ensures r.status == Ok ==> r.value == Some(s.entries.rows[entryId])
    ensures Wf(s) && KnownUser(s, caller) ==> r.status != ServerError
  {
    match EntryAccess(s, caller, entryId)
    case Some(st) => Refuse(st, s)
    case None => Reply(Ok, s, Some(s.entries.rows[entryId]))
  }

  /** Stores a new entry under a fresh id; nothing else changes. */
  function AddEntry(s: Store, e: Entry): (r: (Id, Store))
    ensures r.0 !in s.entries.rows && r.0 in r.1.entries.rows
    ensures r.1 == s.(entries := r.1.entries)
    ensures r.1.entries.rows - {r.0} == s.entries.rows
    ensures r.1.entries.rows[r.0] == e
  {
    var (id, entries) := Insert(s.entries, e);
    assert entries.rows - {id} == s.entries.rows;
    (id, s.(entries := entries))
  }

  /** The store with entry `entryId` replaced by `e`; nothing else changes. */
  function ReplaceEntry(s: Store, entryId: Id, e: Entry): (r: Store)
    requires entryId in s.entries.rows
    ensures r == s.(entries := r.entries)
    ensures entryId in r.entries.rows
    ensures r.entries.rows - {entryId} == s.entries.rows - {entryId}
    ensures r.entries.rows[entryId] == e
  {
    var r := s.(entries := Update(s.entries, entryId, e));
    assert r.entries.rows - {entryId} == s.entries.rows - {entryId};
    r
  }

  /** Putting back the entry that was replaced restores the store. */
  lemma ReplaceEntryUndone(s: Store, entryId: Id, e: Entry)
    requires entryId in s.entries.rows
    ensures ReplaceEntry(ReplaceEntry(s, entryId, e), entryId, s.entries.rows[entryId]) == s
  {
    var s' := ReplaceEntry(ReplaceEntry(s, entryId, e), entryId, s.entries.rows[entryId]);
    assert s'.entries.rows == s.entries.rows;
  }

  /** Replacing an entry by one whose diary and tags exist keeps the store well formed. */
  lemma ReplaceEntryKeepsWf(s: Store, entryId: Id, e: Entry)
    requires Wf(s) && entryId in s.entries.rows
    requires e.diaryId in s.diaries.rows && forall t :: t in e.tags ==> t in s.tags.rows
    ensures Wf(ReplaceEntry(s, entryId, e))
  {
    var s' := ReplaceEntry(s, entryId, e);
    assert EntryTagsExist(s') by {
      forall x, t | x in s'.entries.rows && t in s'.entries.rows[x].tags
        ensures t in s'.tags.rows
      {
        if x != entryId {
          assert s'.entries.rows[x] == s.entries.rows[x];
        }
      }
    }
    assert EntryDiariesExist(s') by {
      forall x | x in s'.entries.rows
        ensures s'.entries.rows[x].diaryId in s'.diaries.rows
      {
        if x != entryId {
          assert s'.entries.rows[x] == s.entries.rows[x];
        }
      }
    }
  }

  /** Replacing an entry by one without repeated tags keeps every tag list free of repetitions. */
  lemma ReplaceEntryKeepsNoRepeatedTags(s: Store, entryId: Id, e: Entry)
    requires NoRepeatedTags(s) && entryId in s.entries.rows && NoDuplicates(e.tags)
    ensures NoRepeatedTags(ReplaceEntry(s, entryId, e))
  {
    var s' := ReplaceEntry(s, entryId, e);
    forall x | x in s'.entries.rows
      ensures NoDuplicates(s'.entries.rows[x].tags)
    {
      if x != entryId {
        assert s'.entries.rows[x] == s.entries.rows[x];
      }
    }
  }

  /** Adding an entry whose diary exists and which has no tags keeps the
      store well formed and every tag list free of repetitions. */
  lemma AddEntryKeepsWf(s: Store, e: Entry)
    requires e.diaryId in s.diaries.rows && e.tags == []
    ensures Wf(s) ==> Wf(AddEntry(s, e).1)
    ensures NoRepeatedTags(s) ==> NoRepeatedTags(AddEntry(s, e).1)
  {
    var (id, s') := AddEntry(s, e);
    forall x | x in s'.entries.rows && x != id
      ensures s'.entries.rows[x] == s.entries.rows[x]
    {
      assert x in s'.entries.rows - {id};
    }
  }

  /** The part of `create_entry` after the body is loaded: the diary must
      exist, then `user.id` is read; the entry is added only to a diary of
      the caller's, with no tags. */
  function CreateLoadedEntry(s: Store, caller: Id, data: EntryData): (r: Reply<Id>)
    ensures ErrorsChangeNothing(r, s)
    ensures r.status == NotFound <==> Get(s.diaries, data.diaryId).None?
    ensures r.status == ServerError <==> Get(s.diaries, data.diaryId).Some? && !KnownUser(s, caller)
    ensures r.status == Forbidden <==>
              Get(s.diaries, data.diaryId).Some? && KnownUser(s, caller)
              && Get(s.diaries, data.diaryId).value.userId != caller
    ensures r.status == Created <==>
              Get(s.diaries, data.diaryId).Some? && KnownUser(s, caller)
              && Get(s.diaries, data.diaryId).value.userId == caller
    ensures r.status == Created ==>
              && r.value.Some?
              && r.value.value !in s.entries.rows
              && r.value.value in r.store.entries.rows
              && r.store == s.(entries := r.store.entries)
              && r.store.entries.rows - {r.value.value} == s.entries.rows
              && r.store.entries.rows[r.value.value].content == data.content
              && r.store.entries.rows[r.value.value].diaryId == data.diaryId
              && r.store.entries.rows[r.value.value].tags == []
  {
    match Get(s.diaries, data.diaryId)
    case None => Refuse(NotFound, s)
    case Some(diary) =>
      if !KnownUser(s, caller) then Refuse(ServerError, s)
      else if diary.userId != caller then Refuse(Forbidden, s)
      else
        var (id, s') := AddEntry(s, Entry(data.content, data.diaryId as Id, []));
        Reply(Created, s', Some(id))
  }

  /** `create_entry`: the body is validated before any lookup, so a bad body
      is a 400 whatever the diary. */
  function CreateEntry(s: Store, caller: Id, b: EntryBody): (r: Reply<Id>)
    ensures ErrorsChangeNothing(r, s)
    ensures r.status == BadRequest <==> LoadEntry(b).Failure?
    ensures LoadEntry(b).Success? ==> r == CreateLoadedEntry(s, caller, LoadEntry(b).value)
  {
    match LoadEntry(b)
    case Failure(_) => Refuse(BadRequest, s)
    case Success(data) => CreateLoadedEntry(s, caller, data)
  }

  /** `update_entry`: after the access checks the whole body is validated
      (`diary_id` included), but only `content` is written. */
  function UpdateEntry(s: Store, caller: Id, entryId: Id, b: EntryBody): (r: Reply<Entry>)
    ensures ErrorsChangeNothing(r, s)
    ensures r.status == NotFound <==> entryId !in s.entries.rows
    ensures r.status == ServerError <==> OwnerCheckRaises(s, caller, entryId)
    ensures r.status == Forbidden <==> OwnedByOther(s, caller, entryId) && KnownUser(s, caller)
    ensures r.status == BadRequest <==>
              EntryOwnedBy(s, entryId, caller) && KnownUser(s, caller) && LoadEntry(b).Failure?
    ensures r.status == Ok <==> EntryOwnedBy(s, entryId, caller) && KnownUser(s, caller) && LoadEntry(b).Success?
    ensures Wf(s) && KnownUser(s, caller) ==> r.status != ServerError
    ensures r.status == Ok ==>
              && r.value == Some(s.entries.rows[entryId].(content := LoadEntry(b).value.content))
              && r.store == ReplaceEntry(s, entryId, r.value.value)
  {
    match EntryAccess(s, caller, entryId)
    case Some(st) => Refuse(st, s)
    case None =>
      match LoadEntry(b)
      case Failure(_) => Refuse(BadRequest, s)
      case Success(data) =>
        var entry := s.entries.rows[entryId].(content := data.content);
        Reply(Ok, ReplaceEntry(s, entryId, entry), Some(entry))
  }

  /** `delete_entry`: only the diary's owner deletes, and the entry's
      comments and likes go with it. */
  function DeleteEntry(s: Store, caller: Id, entryId: Id): (r: Reply<()>)
    ensures ErrorsChangeNothing(r, s)
    ensures r.status == NotFound <==> entryId !in s.entries.rows
    ensures r.status == ServerError <==> OwnerCheckRaises(s, caller, entryId)
    ensures r.status == Forbidden <==> OwnedByOther(s, caller, entryId) && KnownUser(s, caller)
    ensures r.status == Ok <==> EntryOwnedBy(s, entryId, caller) && KnownUser(s, caller)
    ensures Wf(s) && KnownUser(s, caller) ==> r.status != ServerError
    ensures r.status == Ok ==>
              && r.store == DeleteEntryCascade(s, entryId)
              && entryId !in r.store.entries.rows
              && (forall c :: c in r.store.comments.rows ==> r.store.comments.rows[c].entryId != entryId)
              && (forall l :: l in r.store.likes.rows ==> r.store.likes.rows[l].entryId != entryId)
  {
    match EntryAccess(s, caller, entryId)
    case Some(st) => Refuse(st, s)
    case None => Reply(Ok, DeleteEntryCascade(s, entryId), Some(()))
  }

  /** A new entry lies in an existing diary and carries no tags, so the
      store stays well formed. */
  lemma CreateEntryKeepsWf(s: Store, caller: Id, b: EntryBody)
    requires Wf(s)
    ensures Wf(CreateEntry(s, caller, b).store)
    ensures NoRepeatedTags(s) ==> NoRepeatedTags(CreateEntry(s, caller, b).store)
  {
    if LoadEntry(b).Success? {
      var data := LoadEntry(b).value;
      match Get(s.diaries, data.diaryId)
      case None =>
      case Some(diary) =>
        if KnownUser(s, caller) && diary.userId == caller {
          AddEntryKeepsWf(s, Entry(data.content, data.diaryId as Id, []));
        }
    }
  }

  /** Changing an entry's content keeps the store well formed. */
  lemma UpdateEntryKeepsWf(s: Store, caller: Id, entryId: Id, b: EntryBody)
    requires Wf(s)
    ensures Wf(UpdateEntry(s, caller, entryId, b).store)
    ensures NoRepeatedTags(s) ==> NoRepeatedTags(UpdateEntry(s, caller, entryId, b).store)
  {
    var r := UpdateEntry(s, caller, entryId, b);
    if r.status == Ok {
      if Wf(s) {
        ReplaceEntryKeepsWf(s, entryId, r.value.value);
      }
      if NoRepeatedTags(s) {
        ReplaceEntryKeepsNoRepeatedTags(s, entryId, r.value.value);
      }
    }
  }

  /** Deleting an entry through the handler keeps the store well formed. */
  lemma DeleteEntryHandlerKeepsWf(s: Store, caller: Id, entryId: Id)
    requires Wf(s)
    ensures Wf(DeleteEntry(s, caller, entryId).store)
  {
    DeleteEntryKeepsWf(s, entryId);
  }

  /** The checks of the two tag handlers, in their order: entry 404, tag
      404, then the ownership check. `None` lets the request through. */
  function TagAccess(s: Store, caller: Id, entryId: Id, tagId: Id): (r: Option<Status>)
    ensures r.None? <==> EntryOwnedBy(s, entryId, caller) && KnownUser(s, caller) && tagId in s.tags.rows
    ensures r == Some(NotFound) <==> entryId !in s.entries.rows || tagId !in s.tags.rows
    ensures r == Some(ServerError) <==> OwnerCheckRaises(s, caller, entryId) && tagId in s.tags.rows
    ensures r == Some(Forbidden) <==> OwnedByOther(s, caller, entryId) && KnownUser(s, caller) && tagId in s.tags.rows
    ensures r.Some? ==> r.value.IsError()
  {
    if entryId !in s.entries.rows then Some(NotFound)
    else if tagId !in s.tags.rows then Some(NotFound)
    else EntryAccess(s, caller, entryId)
  }

  /** `add_tag` as written: `Entry.add_tag` appends the tag, and the handler
      then appends it a second time before committing. */
  function AddTag(s: Store, caller: Id, entryId: Id, tagId: Id): (r: Reply<Entry>)
    ensures ErrorsChangeNothing(r, s)
    ensures r.status == NotFound <==> entryId !in s.entries.rows || tagId !in s.tags.rows
    ensures r.status == ServerError <==> OwnerCheckRaises(s, caller, entryId) && tagId in s.tags.rows
    ensures r.status == Forbidden <==> OwnedByOther(s, caller, entryId) && KnownUser(s, caller) && tagId in s.tags.rows
    ensures r.status == Conflict <==>
              EntryOwnedBy(s, entryId, caller) && KnownUser(s, caller) && tagId in s.tags.rows
              && tagId in s.entries.rows[entryId].tags
    ensures r.status == Ok <==>
              EntryOwnedBy(s, entryId, caller) && KnownUser(s, caller) && tagId in s.tags.rows
              && tagId !in s.entries.rows[entryId].tags
    ensures Wf(s) && KnownUser(s, caller) ==> r.status != ServerError
    ensures r.status == Ok ==>
              && r.value == Some(s.entries.rows[entryId].(tags := s.entries.rows[entryId].tags + [tagId, tagId]))
              && r.store == ReplaceEntry(s, entryId, r.value.value)
  {
    match TagAccess(s, caller, entryId, tagId)
    case Some(st) => Refuse(st, s)
    case None =>
      var entry := s.entries.rows[entryId];
      var added := EntryTags.AddTag(entry.tags, tagId);
      if !added.0 then Refuse(Conflict, s)
      else
        var tags := added.1 + [tagId];
        assert tags == entry.tags + [tagId, tagId];
        Reply(Ok, ReplaceEntry(s, entryId, entry.(tags := tags)), Some(entry.(tags := tags)))
  }

  /** The handler's own `entry.tags.remove(tag)` on the list `Entry.remove_tag`
      left behind (`once`, the original `tags` minus one `t`); `None` where it
      raises `ValueError`, which is when `t` occurred only once. */
  function RemoveAgain(tags: seq<Id>, once: seq<Id>, t: Id): (r: Option<seq<Id>>)
    requires multiset(once) == multiset(tags) - multiset{t} && t in tags
    ensures r.None? <==> multiset(tags)[t] == 1
    ensures r.Some? ==> multiset(r.value) == multiset(tags) - multiset{t, t}
    ensures r.Some? ==> EntryTags.CutsFirst(once, t, r.value)
  {
    assert t in once <==> multiset(once)[t] > 0;
    EntryTags.ListRemove(once, t)
  }

  /** What `remove_tag` does once its checks pass: `Entry.remove_tag`
      removes one occurrence (or reports that there is none, a 400), then the
      handler calls `list.remove` again, which raises `ValueError` (a 500,
      nothing committed) unless a second occurrence is left. */
  function RemoveTagTwice(s: Store, entryId: Id, tagId: Id): (r: Reply<Entry>)
    requires entryId in s.entries.rows
    ensures ErrorsChangeNothing(r, s)
    ensures r.status == BadRequest <==> multiset(s.entries.rows[entryId].tags)[tagId] == 0
    ensures r.status == ServerError <==> multiset(s.entries.rows[entryId].tags)[tagId] == 1
    ensures r.status == Ok <==> multiset(s.entries.rows[entryId].tags)[tagId] >= 2
    ensures r.status == Ok ==>
              && r.value.Some?
              && r.value.value == s.entries.rows[entryId].(tags := r.value.value.tags)
              && r.store == ReplaceEntry(s, entryId, r.value.value)
              && multiset(r.value.value.tags) == multiset(s.entries.rows[entryId].tags) - multiset{tagId, tagId}
    ensures r.status == Ok ==>
              EntryTags.CutsFirst(EntryTags.RemoveTag(s.entries.rows[entryId].tags, tagId).1, tagId, r.value.value.tags)
  {
    var tags := s.entries.rows[entryId].tags;
    var removed := EntryTags.RemoveTag(tags, tagId);
    if !removed.0 then
      assert multiset(tags)[tagId] == 0;
      Refuse(BadRequest, s)
    else RemoveSecond(s, entryId, tagId, removed.1)
  }

  /** The handler's second removal, applied to the entry once `Entry.remove_tag`
      has left `once` behind: a 500 with nothing committed when the tag
      occurred only once, else the entry is replaced with two occurrences gone. */
  function RemoveSecond(s: Store, entryId: Id, tagId: Id, once: seq<Id>): (r: Reply<Entry>)
    requires entryId in s.entries.rows
    requires tagId in s.entries.rows[entryId].tags
    requires multiset(once) == multiset(s.entries.rows[entryId].tags) - multiset{tagId}
    ensures ErrorsChangeNothing(r, s)
    ensures r.status == ServerError <==> multiset(s.entries.rows[entryId].tags)[tagId] == 1
    ensures r.status == Ok <==> multiset(s.entries.rows[entryId].tags)[tagId] >= 2
    ensures r.status == Ok ==>
              && r.value.Some?
              && r.value.value == s.entries.rows[entryId].(tags := r.value.value.tags)
              && r.store == ReplaceEntry(s, entryId, r.value.value)
              && multiset(r.value.value.tags) == multiset(s.entries.rows[entryId].tags) - multiset{tagId, tagId}
    ensures r.status == Ok ==> EntryTags.CutsFirst(once, tagId, r.value.value.tags)
  {
    var entry := s.entries.rows[entryId];
    var again := RemoveAgain(entry.tags, once, tagId);
    if again.None? then Refuse(ServerError, s)
    else Reply(Ok, ReplaceEntry(s, entryId, entry.(tags := again.value)), Some(entry.(tags := again.value)))
  }

  /** `remove_tag` as written: the checks of `TagAccess`, then `RemoveTagTwice`.
      On a tag list without repetitions a successful `Entry.remove_tag`
      therefore always ends in a 500. */
  function RemoveTag(s: Store, caller: Id, entryId: Id, tagId: Id): (r: Reply<Entry>)
    ensures ErrorsChangeNothing(r, s)
    ensures r.status == NotFound <==> entryId !in s.entries.rows || tagId !in s.tags.rows
    ensures r.status == Forbidden <==> OwnedByOther(s, caller, entryId) && KnownUser(s, caller) && tagId in s.tags.rows
    ensures EntryOwnedBy(s, entryId, caller) && KnownUser(s, caller) && tagId in s.tags.rows ==>
              r == RemoveTagTwice(s, entryId, tagId)
    ensures r.status == ServerError <==>
              || (OwnerCheckRaises(s, caller, entryId) && tagId in s.tags.rows)
              || (EntryOwnedBy(s, entryId, caller) && KnownUser(s, caller) && tagId in s.tags.rows
                  && multiset(s.entries.rows[entryId].tags)[tagId] == 1)
    ensures Wf(s) && KnownUser(s, caller) && r.status == ServerError ==>
              && EntryOwnedBy(s, entryId, caller)
              && multiset(s.entries.rows[entryId].tags)[tagId] == 1
  {
    match TagAccess(s, caller, entryId, tagId)
    case Some(st) => Refuse(st, s)
    case None => RemoveTagTwice(s, entryId, tagId)
  }

  /** `get_entries_by_tag`, open to anyone: the tag's entries whose diary is
      public, in the order of `tag.entries`; entries of private diaries are
      left out silently. */
  function GetEntriesByTag(s: Store, tagId: Id): (r: Reply<seq<Id>>)
    ensures r.store == s
    ensures r.status == NotFound <==> tagId !in s.tags.rows
    ensures r.status == ServerError <==>
              tagId in s.tags.rows && exists e :: e in EntriesOfTag(s, tagId) && Dangling(s, e)
    ensures r.status == Ok <==>
              tagId in s.tags.rows && forall e :: e in EntriesOfTag(s, tagId) ==> !Dangling(s, e)
    ensures Wf(s) ==> r.status != ServerError
    ensures r.status == Ok ==>
              && r.value.Some?
              && Increasing(r.value.value)
              && forall e :: e in r.value.value <==>
                   e in s.entries.rows && tagId in s.entries.rows[e].tags && EntryIsPublic(s, e)
  {
    if tagId !in s.tags.rows then Refuse(NotFound, s)
    else
      var tagged := EntriesOfTag(s, tagId);
      if exists e :: e in tagged && Dangling(s, e) then Refuse(ServerError, s)
      else
        var public := (e: Id) => EntryIsPublic(s, e);
        FilterKeepsIncreasing(tagged, public);
        Reply(Ok, s, Some(Filter(tagged, public)))
  }

  /** As written, a successful `add_tag` leaves the tag on the entry twice,
      so the entry's tag list is no longer free of repetitions. */
  lemma AddTagStoresTagTwice(s: Store, caller: Id, entryId: Id, tagId: Id)
    requires AddTag(s, caller, entryId, tagId).status == Ok
    ensures var tags := AddTag(s, caller, entryId, tagId).store.entries.rows[entryId].tags;
      multiset(tags)[tagId] == 2 && !NoDuplicates(tags)
  {
    var tags := AddTag(s, caller, entryId, tagId).store.entries.rows[entryId].tags;
    assert tags[|tags| - 2] == tags[|tags| - 1];
  }

  /** As written, `add_tag` still keeps the store well formed: the tag it
      appends twice exists. */
  lemma AddTagKeepsWf(s: Store, caller: Id, entryId: Id, tagId: Id)
    requires Wf(s)
    ensures Wf(AddTag(s, caller, entryId, tagId).store)
  {
    var r := AddTag(s, caller, entryId, tagId);
    if r.status == Ok {
      ReplaceEntryKeepsWf(s, entryId, r.value.value);
    }
  }

  /** As written, `remove_tag` on a tag the entry carries once fails with a
      500 and commits nothing. */
  lemma RemoveTagFailsOnSingleTag(s: Store, caller: Id, entryId: Id, tagId: Id)
    requires EntryOwnedBy(s, entryId, caller) && tagId in s.tags.rows
    requires tagId in s.entries.rows[entryId].tags && NoDuplicates(s.entries.rows[entryId].tags)
    ensures RemoveTag(s, caller, entryId, tagId).status == ServerError
    ensures RemoveTag(s, caller, entryId, tagId).store == s
  {
    EntryTags.NoDuplicatesOccursOnce(s.entries.rows[entryId].tags, tagId);
  }

  /** As written, the two slips cancel out: removing a tag that `add_tag` has
      just added twice succeeds and gives back the store as it was. */
  lemma AddThenRemoveRestoresAsWritten(s: Store, caller: Id, entryId: Id, tagId: Id)
    requires AddTag(s, caller, entryId, tagId).status == Ok
    ensures var s' := AddTag(s, caller, entryId, tagId).store;
      && RemoveTag(s', caller, entryId, tagId).status == Ok
      && RemoveTag(s', caller, entryId, tagId).store == s
  {
    var entry := s.entries.rows[entryId];
    var twice := entry.tags + [tagId, tagId];
    var once := entry.tags + [tagId];
    var s' := AddTag(s, caller, entryId, tagId).store;
    assert s' == ReplaceEntry(s, entryId, entry.(tags := twice));
    assert s'.users == s.users && KnownUser(s', caller);
    assert EntryOwnedBy(s', entryId, caller) && tagId in s'.tags.rows;
    assert TagAccess(s', caller, entryId, tagId).None?;
    EntryTags.RemoveFirstPastPrefix(entry.tags, [tagId, tagId], tagId);
    assert EntryTags.RemoveTag(twice, tagId) == (true, once);
    EntryTags.RemoveFirstAfterAppend(entry.tags, tagId);
    assert RemoveAgain(twice, once, tagId) == Some(entry.tags);
    ReplaceEntryUndone(s, entryId, entry.(tags := twice));
    assert RemoveTagTwice(s', entryId, tagId).store == s;
  }

  /** `add_tag` as evidently intended: `Entry.add_tag` alone appends the tag once. */
  function AddTagIntended(s: Store, caller: Id, entryId: Id, tagId: Id): (r: Reply<Entry>)
    ensures ErrorsChangeNothing(r, s)
    ensures r.status == NotFound <==> entryId !in s.entries.rows || tagId !in s.tags.rows
    ensures r.status == ServerError <==> OwnerCheckRaises(s, caller, entryId) && tagId in s.tags.rows
    ensures r.status == Forbidden <==> OwnedByOther(s, caller, entryId) && KnownUser(s, caller) && tagId in s.tags.rows
    ensures r.status == Conflict <==>
              EntryOwnedBy(s, entryId, caller) && KnownUser(s, caller) && tagId in s.tags.rows
              && tagId in s.entries.rows[entryId].tags
    ensures r.status == Ok <==>
              EntryOwnedBy(s, entryId, caller) && KnownUser(s, caller) && tagId in s.tags.rows
              && tagId !in s.entries.rows[entryId].tags
    ensures Wf(s) && KnownUser(s, caller) ==> r.status != ServerError
    ensures r.status == Ok ==>
              && r.value == Some(s.entries.rows[entryId].(tags := s.entries.rows[entryId].tags + [tagId]))
              && r.store == ReplaceEntry(s, entryId, r.value.value)
  {
    match TagAccess(s, caller, entryId, tagId)
    case Some(st) => Refuse(st, s)
    case None =>
      var entry := s.entries.rows[entryId];
      var added := EntryTags.AddTag(entry.tags, tagId);
      if !added.0 then Refuse(Conflict, s)
      else Reply(Ok, ReplaceEntry(s, entryId, entry.(tags := added.1)), Some(entry.(tags := added.1)))
  }

  /** `remove_tag` as evidently intended: `Entry.remove_tag` alone removes one occurrence. */
  function RemoveTagIntended(s: Store, caller: Id, entryId: Id, tagId: Id): (r: Reply<Entry>)
    ensures ErrorsChangeNothing(r, s)
    ensures r.status == NotFound <==> entryId !in s.entries.rows || tagId !in s.tags.rows
    ensures r.status == ServerError <==> OwnerCheckRaises(s, caller, entryId) && tagId in s.tags.rows
    ensures r.status == Forbidden <==> OwnedByOther(s, caller, entryId) && KnownUser(s, caller) && tagId in s.tags.rows
    ensures r.status == BadRequest <==>
              EntryOwnedBy(s, entryId, caller) && KnownUser(s, caller) && tagId in s.tags.rows
              && tagId !in s.entries.rows[entryId].tags
    ensures r.status == Ok <==>
              EntryOwnedBy(s, entryId, caller) && KnownUser(s, caller) && tagId in s.tags.rows
              && tagId in s.entries.rows[entryId].tags
    ensures Wf(s) && KnownUser(s, caller) ==> r.status != ServerError
    ensures r.status == Ok ==>
              && r.value.Some?
              && r.value.value == s.entries.rows[entryId].(tags := r.value.value.tags)
              && r.store == ReplaceEntry(s, entryId, r.value.value)
              && multiset(r.value.value.tags) == multiset(s.entries.rows[entryId].tags) - multiset{tagId}
              && EntryTags.CutsFirst(s.entries.rows[entryId].tags, tagId, r.value.value.tags)
  {
    match TagAccess(s, caller, entryId, tagId)
    case Some(st) => Refuse(st, s)
    case None => TakeTagOff(s, entryId, tagId)
  }

  /** What the intended `remove_tag` does once its checks pass: a 400 for a
      tag the entry does not carry, else its first occurrence is cut out. */
  function TakeTagOff(s: Store, entryId: Id, tagId: Id): (r: Reply<Entry>)
    requires entryId in s.entries.rows
    ensures ErrorsChangeNothing(r, s)
    ensures r.status == BadRequest <==> tagId !in s.entries.rows[entryId].tags
    ensures r.status == Ok <==> tagId in s.entries.rows[entryId].tags
    ensures r.status == Ok ==>
              && r.value.Some?
              && r.value.value == s.entries.rows[entryId].(tags := r.value.value.tags)
              && r.store == ReplaceEntry(s, entryId, r.value.value)
              && multiset(r.value.value.tags) == multiset(s.entries.rows[entryId].tags) - multiset{tagId}
              && EntryTags.CutsFirst(s.entries.rows[entryId].tags, tagId, r.value.value.tags)
  {
    var entry := s.entries.rows[entryId];
    var removed := EntryTags.RemoveTag(entry.tags, tagId);
    if !removed.0 then Refuse(BadRequest, s)
    else Reply(Ok, ReplaceEntry(s, entryId, entry.(tags := removed.1)), Some(entry.(tags := removed.1)))
  }

  /** The intended `add_tag` puts the tag on the entry exactly once, keeps
      every tag list free of repetitions, and keeps the store well formed. */
  lemma AddTagIntendedKeepsInvariants(s: Store, caller: Id, entryId: Id, tagId: Id)
    requires AddTagIntended(s, caller, entryId, tagId).status == Ok
    ensures var s' := AddTagIntended(s, caller, entryId, tagId).store;
      && multiset(s'.entries.rows[entryId].tags)[tagId] == 1
      && (NoRepeatedTags(s) ==> NoRepeatedTags(s'))
      && (Wf(s) ==> Wf(s'))
  {
    var s' := AddTagIntended(s, caller, entryId, tagId).store;
    var tags: seq<Id> := s.entries.rows[entryId].tags;
    assert multiset(tags)[tagId] == 0;
    if NoRepeatedTags(s) {
      EntryTags.AddTagKeepsNoDuplicates(tags, tagId);
      ReplaceEntryKeepsNoRepeatedTags(s, entryId, s'.entries.rows[entryId]);
    }
    if Wf(s) {
      ReplaceEntryKeepsWf(s, entryId, s'.entries.rows[entryId]);
    }
  }

  /** With the intended `add_tag`, adding the same tag again is refused with a
      409, so the entry carries the tag once however often it is added. */
  lemma AddTagIntendedTwiceConflicts(s: Store, caller: Id, entryId: Id, tagId: Id)
    requires AddTagIntended(s, caller, entryId, tagId).status == Ok
    ensures var s' := AddTagIntended(s, caller, entryId, tagId).store;
      && AddTagIntended(s', caller, entryId, tagId).status == Conflict
      && AddTagIntended(s', caller, entryId, tagId).store == s'
  {
    var s' := AddTagIntended(s, caller, entryId, tagId).store;
    assert s'.entries.rows[entryId].diaryId == s.entries.rows[entryId].diaryId;
    assert EntryOwnedBy(s', entryId, caller);
  }

  /** With the intended handlers, on a tag list without repetitions removing a
      tag takes it off the entry, and no tag list gains a repetition. */
  lemma RemoveTagIntendedClearsTag(s: Store, caller: Id, entryId: Id, tagId: Id)
    requires NoRepeatedTags(s)
    requires EntryOwnedBy(s, entryId, caller) && KnownUser(s, caller) && tagId in s.tags.rows
    requires tagId in s.entries.rows[entryId].tags
    ensures RemoveTagIntended(s, caller, entryId, tagId).status == Ok
    ensures var s' := RemoveTagIntended(s, caller, entryId, tagId).store;
      tagId !in s'.entries.rows[entryId].tags && NoRepeatedTags(s')
  {
    var s' := RemoveTagIntended(s, caller, entryId, tagId).store;
    var tags: seq<Id> := s.entries.rows[entryId].tags;
    EntryTags.RemoveTagClearsTag(tags, tagId);
    EntryTags.RemoveTagKeepsNoDuplicates(tags, tagId);
    assert s'.entries.rows[entryId].tags == EntryTags.RemoveTag(tags, tagId).1;
    assert forall e :: e in s'.entries.rows && e != entryId ==> s'.entries.rows[e] == s.entries.rows[e];
  }

  /** With the intended handlers, removing a tag just added succeeds and
      gives back the store as it was. */
  lemma AddThenRemoveIntendedRestores(s: Store, caller: Id, entryId: Id, tagId: Id)
    requires AddTagIntended(s, caller, entryId, tagId).status == Ok
    ensures var s' := AddTagIntended(s, caller, entryId, tagId).store;
      && RemoveTagIntended(s', caller, entryId, tagId).status == Ok
      && RemoveTagIntended(s', caller, entryId, tagId).store == s
  {
    var entry := s.entries.rows[entryId];
    var once := entry.tags + [tagId];
    var s' := AddTagIntended(s, caller, entryId, tagId).store;
    assert s' == ReplaceEntry(s, entryId, entry.(tags := once));
    assert EntryOwnedBy(s', entryId, caller) && tagId in s'.tags.rows;
    EntryTags.RemoveFirstAfterAppend(entry.tags, tagId);
    assert EntryTags.RemoveTag(once, tagId) == (true, entry.tags);
    ReplaceEntryUndone(s, entryId, entry.(tags := once));
  }
}
