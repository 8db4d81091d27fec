/** The handlers of the `/diaries` blueprint. A diary is shown, changed and
    deleted by its owner only; a body that fails to load and a title too
    long for its column are both answered with a 400 and change nothing. */
module DiariesController {
  import opened Wrappers
  import opened Seqs
  import opened Tables
  import opened Fields
  import opened Privacy
  import opened Models
  import opened Http
  import opened Schemas

  /** The database refuses a title longer than the `String(255)` column
      (a `DataError`, answered with a 400). */
  predicate FitsTitleColumn(title: string) {
    |title| <= TitleMaxLength
  }

  /** `get_diaries`: the caller's diaries, in key order; `user.id` is read
      before anything else. */
  function GetDiaries(s: Store, caller: Id): (r: Reply<seq<Id>>)
    ensures r.store == s
    ensures r.status == ServerError <==> !KnownUser(s, caller)
    ensures r.status == Ok <==> KnownUser(s, caller)
    ensures r.status == Ok ==>
              && r.value.Some?
              && Increasing(r.value.value)
              && forall d :: d in r.value.value <==> OwnsDiary(s, caller, d)
  {
    if !KnownUser(s, caller) then Refuse(ServerError, s)
    else Reply(Ok, s, Some(Select(s.diaries, (d: Diary) => d.userId == caller)))
  }

  /** The checks of the single-diary handlers: the diary must exist, then
      `user.id` is read, then the diary must belong to the caller. `None`
      lets the request through. */
  function DiaryAccess(s: Store, caller: Id, diaryId: Id): (r: Option<Status>)
    ensures r.None? <==> OwnsDiary(s, caller, diaryId) && KnownUser(s, caller)
    ensures r == Some(NotFound) <==> diaryId !in s.diaries.rows
    ensures r == Some(ServerError) <==> diaryId in s.diaries.rows && !KnownUser(s, caller)
    ensures r == Some(Forbidden) <==>
              diaryId in s.diaries.rows && KnownUser(s, caller) && !OwnsDiary(s, caller, diaryId)
    ensures r.Some? ==> r.value.IsError()
  {
    if diaryId !in s.diaries.rows then Some(NotFound)
    else if !KnownUser(s, caller) then Some(ServerError)
    else if s.diaries.rows[diaryId].userId != caller then Some(Forbidden)
    else None
  }

  /** `get_diary`: a diary is shown to its owner only, public or not. */
  function GetDiary(s: Store, caller: Id, diaryId: Id): (r: Reply<Diary>)
    ensures r.store == s
    ensures r.status == NotFound <==> diaryId !in s.diaries.rows
    ensures r.status == ServerError <==> diaryId in s.diaries.rows && !KnownUser(s, caller)
    ensures r.status == Forbidden <==>
              diaryId in s.diaries.rows && KnownUser(s, caller) && !OwnsDiary(s, caller, diaryId)
    ensures r.status == Ok <==> OwnsDiary(s, caller, diaryId) && KnownUser(s, caller)
    ensures r.status == Ok ==> r.value == Some(s.diaries.rows[diaryId])
  {
    match DiaryAccess(s, caller, diaryId)
    case Some(st) => Refuse(st, s)
    case None => Reply(Ok, s, Some(s.diaries.rows[diaryId]))
  }

  /** The row `Diary(**data)` builds for the caller; the column default
      applies when no privacy was sent. */
  function NewDiary(data: DiaryData, caller: Id): Diary {
    Diary(data.title, data.privacy.GetOr(DefaultPrivacy), caller)
  }

  /** The part of `create_diary` after the body is loaded: `user.id` is
      read, then a title too long for its column is refused at commit;
      otherwise the new diary is added. */
  function CreateLoadedDiary(s: Store, caller: Id, data: DiaryData): (r: Reply<Id>)
    ensures ErrorsChangeNothing(r, s)
    ensures r.status == ServerError <==> !KnownUser(s, caller)
    ensures r.status == BadRequest <==> KnownUser(s, caller) && !FitsTitleColumn(data.title)
    ensures r.status == Created <==> KnownUser(s, caller) && FitsTitleColumn(data.title)
    ensures r.status == Created ==>
              && r.value.Some?
              && r.value.value !in s.diaries.rows
              && r.store == s.(diaries := r.store.diaries)
              && r.store.diaries.rows == s.diaries.rows[r.value.value := NewDiary(data, caller)]
  {
    if !KnownUser(s, caller) then Refuse(ServerError, s)
    else if !FitsTitleColumn(data.title) then Refuse(BadRequest, s)
    else
      var (id, diaries) := Insert(s.diaries, NewDiary(data, caller));
      Reply(Created, s.(diaries := diaries), Some(id))
  }

  /** `create_diary`: a diary built from the body, always owned by the caller. */
  function CreateDiary(s: Store, caller: Id, b: DiaryBody): (r: Reply<Id>)
    ensures ErrorsChangeNothing(r, s)
    ensures r.status == BadRequest <==>
              LoadDiary(b).Failure? || (KnownUser(s, caller) && !FitsTitleColumn(LoadDiary(b).value.title))
    ensures r.status == ServerError <==> LoadDiary(b).Success? && !KnownUser(s, caller)
    ensures LoadDiary(b).Success? ==> r == CreateLoadedDiary(s, caller, LoadDiary(b).value)
    ensures r.status == Created ==>
              && r.value.Some?
              && r.value.value !in s.diaries.rows
              && r.store == s.(diaries := r.store.diaries)
              && r.store.diaries.rows == s.diaries.rows[r.value.value := NewDiary(LoadDiary(b).value, caller)]
  {
    match LoadDiary(b)
    case Failure(_) => Refuse(BadRequest, s)
    case Success(data) => CreateLoadedDiary(s, caller, data)
  }

  /** The diary `create_diary` stores, read back in terms of the request:
      the caller owns it whatever the body says, its title is the body's
      title stripped, and its privacy is PRIVATE unless the body names one,
      in any casing. */
  lemma CreatedDiaryFollowsRequest(s: Store, caller: Id, b: DiaryBody)
    requires CreateDiary(s, caller, b).status == Created
    ensures var r := CreateDiary(s, caller, b);
      var d := r.store.diaries.rows[r.value.value];
      && d.userId == caller
      && d.title == Strip(b.title.value.s)
      && 0 < |d.title| <= TitleMaxLength
      && (b.privacy.None? ==> d.privacy == PRIVATE && !IsPublic(d))
      && (b.privacy.Some? ==> b.privacy.value.VStr? && Upper(b.privacy.value.s) == Name(d.privacy))
  {
  }

  /** A privacy value serialised by the schema and sent back in a body is
      stored as that same value. */
  lemma CreateDiaryKeepsSerialisedPrivacy(s: Store, caller: Id, b: DiaryBody, p: PrivacyOption)
    requires KnownUser(s, caller)
    requires b.title.Some? && b.title.value.VStr?
    requires Strip(b.title.value.s) != [] && FitsTitleColumn(Strip(b.title.value.s))
    requires b.privacy == Some(VStr(Serialize(Some(p)).value))
    ensures CreateDiary(s, caller, b).status == Created
    ensures var r := CreateDiary(s, caller, b); r.store.diaries.rows[r.value.value].privacy == p
  {
    var data := DiaryData(Strip(b.title.value.s), Some(p));
    LoadSerialisedPrivacy(b, p);
    var r := CreateDiary(s, caller, b);
    assert r == CreateLoadedDiary(s, caller, data);
    assert r.store.diaries.rows[r.value.value] == NewDiary(data, caller);
  }

  lemma LoadSerialisedPrivacy(b: DiaryBody, p: PrivacyOption)
    requires b.title.Some? && b.title.value.VStr? && Strip(b.title.value.s) != []
    requires b.privacy == Some(VStr(Serialize(Some(p)).value))
    ensures LoadDiary(b) == Success(DiaryData(Strip(b.title.value.s), Some(p)))
  {
    DeserializeSerialize(Some(p));
    assert LoadPrivacy(b.privacy) == Success(Some(p));
    assert LoadText(b.title, DiaryTitleEmptyMessage) == Success(Strip(b.title.value.s));
  }

  /** A diary is created only for an existing caller, so the store stays well formed. */
  lemma CreateDiaryKeepsWf(s: Store, caller: Id, b: DiaryBody)
    requires Wf(s)
    ensures Wf(CreateDiary(s, caller, b).store)
  {
    if LoadDiary(b).Success? {
      CreateLoadedDiaryKeepsWf(s, caller, LoadDiary(b).value);
    }
  }

  lemma CreateLoadedDiaryKeepsWf(s: Store, caller: Id, data: DiaryData)
    requires Wf(s)
    ensures Wf(CreateLoadedDiary(s, caller, data).store)
  {
  }

  /** The diary after `update_diary`: the title is always overwritten, the
      privacy only when the body carries one; the owner stays. */
  function RevisedDiary(d: Diary, data: DiaryData): Diary {
    d.(title := data.title, privacy := data.privacy.GetOr(d.privacy))
  }

  /** The store with diary `diaryId` revised by `data`; nothing else changes. */
  function ReviseDiary(s: Store, diaryId: Id, data: DiaryData): (r: Store)
    requires diaryId in s.diaries.rows
    ensures r == s.(diaries := r.diaries)
    ensures r.diaries.rows == s.diaries.rows[diaryId := RevisedDiary(s.diaries.rows[diaryId], data)]
  {
    s.(diaries := Update(s.diaries, diaryId, RevisedDiary(s.diaries.rows[diaryId], data)))
  }

  /** The part of `update_diary` after the body is loaded: a title too long
      for its column is refused at commit. */
  function ApplyLoadedUpdate(s: Store, diaryId: Id, data: DiaryData): (r: Reply<Diary>)
    requires diaryId in s.diaries.rows
    ensures ErrorsChangeNothing(r, s)
    ensures r.status == BadRequest <==> !FitsTitleColumn(data.title)
    ensures r.status == Ok <==> FitsTitleColumn(data.title)
    ensures r.status == Ok ==>
              && r.value == Some(RevisedDiary(s.diaries.rows[diaryId], data))
              && r.store == ReviseDiary(s, diaryId, data)
  {
    if !FitsTitleColumn(data.title) then Refuse(BadRequest, s)
    else Reply(Ok, ReviseDiary(s, diaryId, data), Some(RevisedDiary(s.diaries.rows[diaryId], data)))
  }

  /** The part of `update_diary` after the access checks: the body is
      loaded, then applied. */
  function ApplyDiaryUpdate(s: Store, diaryId: Id, b: DiaryBody): (r: Reply<Diary>)
    requires diaryId in s.diaries.rows
    ensures ErrorsChangeNothing(r, s)
    ensures r.status == BadRequest <==> LoadDiary(b).Failure? || !FitsTitleColumn(LoadDiary(b).value.title)
    ensures LoadDiary(b).Success? ==> r == ApplyLoadedUpdate(s, diaryId, LoadDiary(b).value)
  {
    match LoadDiary(b)
    case Failure(_) => Refuse(BadRequest, s)
    case Success(data) => ApplyLoadedUpdate(s, diaryId, data)
  }

  /** `update_diary`: the access checks come first, then the update. */
  function UpdateDiary(s: Store, caller: Id, diaryId: Id, b: DiaryBody): (r: Reply<Diary>)
    ensures ErrorsChangeNothing(r, s)
    ensures r.status == NotFound <==> diaryId !in s.diaries.rows
    ensures r.status == ServerError <==> diaryId in s.diaries.rows && !KnownUser(s, caller)
    ensures r.status == Forbidden <==>
              diaryId in s.diaries.rows && KnownUser(s, caller) && !OwnsDiary(s, caller, diaryId)
    ensures r.status == BadRequest <==>
              OwnsDiary(s, caller, diaryId) && KnownUser(s, caller)
              && (LoadDiary(b).Failure? || !FitsTitleColumn(LoadDiary(b).value.title))
    ensures OwnsDiary(s, caller, diaryId) && KnownUser(s, caller) ==> r == ApplyDiaryUpdate(s, diaryId, b)
  {
    match DiaryAccess(s, caller, diaryId)
    case Some(st) => Refuse(st, s)
    case None => ApplyDiaryUpdate(s, diaryId, b)
  }

  /** What a successful `update_diary` writes, in terms of the request: the
      stripped title always, the privacy only when the body names one, and
      never another owner. */
  lemma UpdatedDiaryFollowsRequest(s: Store, caller: Id, diaryId: Id, b: DiaryBody)
    requires UpdateDiary(s, caller, diaryId, b).status == Ok
    ensures var d := UpdateDiary(s, caller, diaryId, b).store.diaries.rows[diaryId];
      && d.userId == caller == s.diaries.rows[diaryId].userId
      && d.title == Strip(b.title.value.s)
      && (b.privacy.None? ==> d.privacy == s.diaries.rows[diaryId].privacy)
      && (b.privacy.Some? ==> b.privacy.value.VStr? && Upper(b.privacy.value.s) == Name(d.privacy))
  {
  }

  /** Revising a diary twice with the same data is revising it once. */
  lemma ReviseDiaryTwice(s: Store, diaryId: Id, data: DiaryData)
    requires diaryId in s.diaries.rows
    ensures ReviseDiary(ReviseDiary(s, diaryId, data), diaryId, data) == ReviseDiary(s, diaryId, data)
  {
    var s' := ReviseDiary(s, diaryId, data);
    assert s'.diaries.rows[diaryId := RevisedDiary(s'.diaries.rows[diaryId], data)] == s'.diaries.rows;
  }

  /** Sending the same update twice leaves the store as sending it once. */
  lemma UpdateDiaryIdempotent(s: Store, caller: Id, diaryId: Id, b: DiaryBody)
    requires UpdateDiary(s, caller, diaryId, b).status == Ok
    ensures var s' := UpdateDiary(s, caller, diaryId, b).store;
      UpdateDiary(s', caller, diaryId, b) == UpdateDiary(s, caller, diaryId, b)
  {
    var data := LoadDiary(b).value;
    var s' := ReviseDiary(s, diaryId, data);
    ReviseDiaryTwice(s, diaryId, data);
    assert DiaryAccess(s', caller, diaryId).None?;
  }

  /** Changing a diary's title or privacy keeps the store well formed. */
  lemma UpdateDiaryKeepsWf(s: Store, caller: Id, diaryId: Id, b: DiaryBody)
    requires Wf(s)
    ensures Wf(UpdateDiary(s, caller, diaryId, b).store)
  {
    if OwnsDiary(s, caller, diaryId) && LoadDiary(b).Success? {
      ReviseDiaryKeepsWf(s, diaryId, LoadDiary(b).value);
    }
  }

  /** Revising a diary keeps its owner, so the store stays well formed. */
  lemma ReviseDiaryKeepsWf(s: Store, diaryId: Id, data: DiaryData)
    requires Wf(s) && diaryId in s.diaries.rows
    ensures Wf(ReviseDiary(s, diaryId, data))
  {
  }

  /** `delete_diary`: only the owner deletes, and the diary's entries, with
      their comments and likes, go with it. */
  function DeleteDiary(s: Store, caller: Id, diaryId: Id): (r: Reply<()>)
    ensures ErrorsChangeNothing(r, s)
    ensures r.status == NotFound <==> diaryId !in s.diaries.rows
    ensures r.status == ServerError <==> diaryId in s.diaries.rows && !KnownUser(s, caller)
    ensures r.status == Forbidden <==>
              diaryId in s.diaries.rows && KnownUser(s, caller) && !OwnsDiary(s, caller, diaryId)
    ensures r.status == Ok <==> OwnsDiary(s, caller, diaryId) && KnownUser(s, caller)
    ensures r.status == Ok ==>
              && r.store == DeleteDiaryCascade(s, diaryId)
              && r.store.diaries.rows == s.diaries.rows - {diaryId}
              && (forall e :: e in r.store.entries.rows ==> r.store.entries.rows[e].diaryId != diaryId)
  {
    match DiaryAccess(s, caller, diaryId)
    case Some(st) => Refuse(st, s)
    case None => Reply(Ok, DeleteDiaryCascade(s, diaryId), Some(()))
  }

  /** Deleting a diary through the handler keeps the store well formed. */
  lemma DeleteDiaryHandlerKeepsWf(s: Store, caller: Id, diaryId: Id)
    requires Wf(s)
    ensures Wf(DeleteDiary(s, caller, diaryId).store)
  {
    DeleteDiaryKeepsWf(s, diaryId);
  }
}
