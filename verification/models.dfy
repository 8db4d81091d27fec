/** The content store: one table per model class, the foreign keys that tie
    them together, and the ORM cascades that run when a user, diary or entry
    is deleted. Timestamps are not modelled. */
module Models {
  import opened Wrappers
  import opened Seqs
  import opened Tables
  import opened Privacy

  datatype User = User(email: string, password: string)

  datatype Diary = Diary(title: string, privacy: PrivacyOption, userId: Id)

  /** `tags` is the entry's tag list as the ORM relationship holds it. */
  datatype Entry = Entry(content: string, diaryId: Id, tags: seq<Id>)

  datatype Tag = Tag(name: string)

  datatype Like = Like(userId: Id, entryId: Id)

  datatype Comment = Comment(content: string, userId: Id, entryId: Id)

  datatype Store = Store(
    users: Table<User>,
    diaries: Table<Diary>,
    entries: Table<Entry>,
    tags: Table<Tag>,
    likes: Table<Like>,
    comments: Table<Comment>)

  /** The width of the `diaries.title` column. */
  const TitleMaxLength := 255

  /** `Diary.is_public`. */
  predicate IsPublic(d: Diary) {
    d.privacy == PUBLIC
  }

  /** The unique constraint on `users.email`. */
  ghost predicate UniqueEmails(s: Store) {
    forall a, b :: a in s.users.rows && b in s.users.rows && a != b ==>
      s.users.rows[a].email != s.users.rows[b].email
  }

  ghost predicate DiaryUsersExist(s: Store) {
    forall d :: d in s.diaries.rows ==> s.diaries.rows[d].userId in s.users.rows
  }

  ghost predicate EntryDiariesExist(s: Store) {
    forall e :: e in s.entries.rows ==> s.entries.rows[e].diaryId in s.diaries.rows
  }

  ghost predicate EntryTagsExist(s: Store) {
    forall e, t :: e in s.entries.rows && t in s.entries.rows[e].tags ==> t in s.tags.rows
  }

  ghost predicate LikeTargetsExist(s: Store) {
    forall l :: l in s.likes.rows ==>
      s.likes.rows[l].userId in s.users.rows && s.likes.rows[l].entryId in s.entries.rows
  }

  ghost predicate CommentTargetsExist(s: Store) {
    forall c :: c in s.comments.rows ==>
      s.comments.rows[c].userId in s.users.rows && s.comments.rows[c].entryId in s.entries.rows
  }

  /** The store as the database's constraints keep it: unique emails and no
      foreign key pointing at a missing row. */
  ghost predicate Wf(s: Store) {
    && UniqueEmails(s)
    && DiaryUsersExist(s)
    && EntryDiariesExist(s)
    && EntryTagsExist(s)
    && LikeTargetsExist(s)
    && CommentTargetsExist(s)
  }

  /** At most one like per (user, entry) pair; the application, not the schema, keeps it. */
  ghost predicate OneLikePerUserAndEntry(s: Store) {
    forall a, b :: a in s.likes.rows && b in s.likes.rows && a != b ==>
      s.likes.rows[a].userId != s.likes.rows[b].userId
      || s.likes.rows[a].entryId != s.likes.rows[b].entryId
  }

  /** No entry carries the same tag twice. */
  ghost predicate NoRepeatedTags(s: Store) {
    forall e :: e in s.entries.rows ==> NoDuplicates(s.entries.rows[e].tags)
  }

  /** `entry.diary.user_id`: the owner of the diary holding entry `e`; `None`
      when the entry or its diary is missing. */
  function EntryOwner(s: Store, e: Id): (r: Option<Id>)
    ensures r.Some? <==> e in s.entries.rows && s.entries.rows[e].diaryId in s.diaries.rows
    ensures r.Some? ==> r.value == s.diaries.rows[s.entries.rows[e].diaryId].userId
  {
    if e in s.entries.rows && s.entries.rows[e].diaryId in s.diaries.rows
    then Some(s.diaries.rows[s.entries.rows[e].diaryId].userId)
    else None
  }

  /** In a well-formed store every entry has an owner. */
  lemma WfEntryHasOwner(s: Store, e: Id)
    requires Wf(s) && e in s.entries.rows
    ensures EntryOwner(s, e).Some?
  {
  }

  /** `diary.entries`: the ids of the entries whose `diary_id` is `d`, in key order. */
  function EntriesOfDiary(s: Store, d: Id): (r: seq<Id>)
    ensures forall e :: e in r <==> e in s.entries.rows && s.entries.rows[e].diaryId == d
    ensures Increasing(r)
  {
    Select(s.entries, (e: Entry) => e.diaryId == d)
  }

  /** `Diary.entries_count`: the number of entries whose `diary_id` is `d`. */
  function EntriesCount(s: Store, d: Id): (n: nat)
    ensures n == |set e | e in s.entries.rows && s.entries.rows[e].diaryId == d|
  {
    var ids := EntriesOfDiary(s, d);
    IncreasingCardinality(ids);
    assert Elements(ids) == set e | e in s.entries.rows && s.entries.rows[e].diaryId == d;
    |ids|
  }

  /** `entry.diary` read through the back-reference `diary.entries`: an entry
      has an owner exactly when some existing diary lists it, and its owner
      is the user whose diary lists it. */
  lemma EntryOwnerIsDiaryOwner(s: Store, e: Id, u: Id)
    ensures EntryOwner(s, e).Some? <==> exists d :: d in s.diaries.rows && e in EntriesOfDiary(s, d)
    ensures EntryOwner(s, e) == Some(u) <==> exists d :: OwnsDiary(s, u, d) && e in EntriesOfDiary(s, d)
  {
    if e in s.entries.rows {
      var d := s.entries.rows[e].diaryId;
      assert e in EntriesOfDiary(s, d);
      forall d' | e in EntriesOfDiary(s, d')
        ensures d' == d
      {
      }
    }
  }

  /** `tag.entries`: the ids of the entries carrying tag `t`, in key order. */
  function EntriesOfTag(s: Store, t: Id): (r: seq<Id>)
    ensures forall e :: e in r <==> e in s.entries.rows && t in s.entries.rows[e].tags
    ensures Increasing(r)
  {
    Select(s.entries, (e: Entry) => t in e.tags)
  }

  /** `entry.likes`: the ids of the likes on entry `e`, in key order. */
  function LikesOfEntry(s: Store, e: Id): (r: seq<Id>)
    ensures forall l :: l in r <==> l in s.likes.rows && s.likes.rows[l].entryId == e
    ensures Increasing(r)
  {
    Select(s.likes, (l: Like) => l.entryId == e)
  }

  /** Entry `e` exists and lies in a diary of user `u`. */
  predicate EntryOwnedBy(s: Store, e: Id, u: Id) {
    EntryOwner(s, e) == Some(u)
  }

  /** The caller's token resolves to a user row. When it does not (the user
      was deleted after the token was issued), `user` is `None` and the
      first `user.id` a handler reads raises `AttributeError`, which no
      blueprint catches: a 500 with nothing committed. */
  predicate KnownUser(s: Store, u: Id) {
    u in s.users.rows
  }

  /** Diary `d` exists and belongs to user `u`. */
  predicate OwnsDiary(s: Store, u: Id, d: Id) {
    d in s.diaries.rows && s.diaries.rows[d].userId == u
  }

  /** Entry `e` exists and its diary is public. */
  predicate EntryIsPublic(s: Store, e: Id) {
    e in s.entries.rows && s.entries.rows[e].diaryId in s.diaries.rows
    && IsPublic(s.diaries.rows[s.entries.rows[e].diaryId])
  }

  /** Entry `e` exists and lies in diary `d`. */
  predicate EntryInDiary(s: Store, e: Id, d: Id) {
    e in s.entries.rows && s.entries.rows[e].diaryId == d
  }

  /** Adds a user unless the email is taken, which the unique constraint on
      `users.email` refuses. */
  function InsertUser(s: Store, email: string, password: string): (r: Option<(Id, Store)>)
    ensures r.None? <==> exists u :: u in s.users.rows && s.users.rows[u].email == email
    ensures r.Some? ==> r.value.0 !in s.users.rows
                        && r.value.1 == s.(users := r.value.1.users)
                        && r.value.1.users.rows == s.users.rows[r.value.0 := User(email, password)]
  {
    if exists u :: u in s.users.rows && s.users.rows[u].email == email then None
    else
      var (id, users) := Insert(s.users, User(email, password));
      Some((id, s.(users := users)))
  }

  /** Adding a user keeps the store well formed; in particular no two users share an email. */
  lemma InsertUserKeepsWf(s: Store, email: string, password: string)
    requires Wf(s)
    ensures InsertUser(s, email, password).Some? ==> Wf(InsertUser(s, email, password).value.1)
  {
  }

  /** Deleting an entry (`cascade="all, delete"` on `Entry.comments` and
      `Entry.likes`) removes the entry, its comments and its likes; its tag
      associations go with the entry's row. Nothing else changes. */
  function DeleteEntryCascade(s: Store, e: Id): (r: Store)
    ensures r.users == s.users && r.diaries == s.diaries && r.tags == s.tags
    ensures r.entries.rows == s.entries.rows - {e}
    ensures forall c :: c in r.comments.rows <==> c in s.comments.rows && s.comments.rows[c].entryId != e
    ensures forall l :: l in r.likes.rows <==> l in s.likes.rows && s.likes.rows[l].entryId != e
    ensures forall c :: c in r.comments.rows ==> r.comments.rows[c] == s.comments.rows[c]
    ensures forall l :: l in r.likes.rows ==> r.likes.rows[l] == s.likes.rows[l]
  {
    s.(entries := Remove(s.entries, e),
       comments := Keep(s.comments, (c: Comment) => c.entryId != e),
       likes := Keep(s.likes, (l: Like) => l.entryId != e))
  }

  /** Deleting a diary (`cascade="all, delete"` on `Diary.entries`) removes the
      diary, its entries, and through them their comments and likes. */
  function DeleteDiaryCascade(s: Store, d: Id): (r: Store)
    ensures r.users == s.users && r.tags == s.tags
    ensures r.diaries.rows == s.diaries.rows - {d}
    ensures forall e :: e in r.entries.rows <==> e in s.entries.rows && s.entries.rows[e].diaryId != d
    ensures forall c :: c in r.comments.rows <==>
              c in s.comments.rows && !EntryInDiary(s, s.comments.rows[c].entryId, d)
    ensures forall l :: l in r.likes.rows <==>
              l in s.likes.rows && !EntryInDiary(s, s.likes.rows[l].entryId, d)
    ensures forall e :: e in r.entries.rows ==> r.entries.rows[e] == s.entries.rows[e]
    ensures forall c :: c in r.comments.rows ==> r.comments.rows[c] == s.comments.rows[c]
    ensures forall l :: l in r.likes.rows ==> r.likes.rows[l] == s.likes.rows[l]
  {
    s.(diaries := Remove(s.diaries, d),
       entries := Keep(s.entries, (e: Entry) => e.diaryId != d),
       comments := Keep(s.comments, (c: Comment) => !EntryInDiary(s, c.entryId, d)),
       likes := Keep(s.likes, (l: Like) => !EntryInDiary(s, l.entryId, d)))
  }

  /** Deleting a user (`cascade="all, delete"` on `User.diaries`,
      `User.comments` and `User.likes`) removes the user, their diaries with
      everything those hold, and their own comments and likes elsewhere. */
  function DeleteUserCascade(s: Store, u: Id): (r: Store)
    ensures r.tags == s.tags
    ensures r.users.rows == s.users.rows - {u}
    ensures forall d :: d in r.diaries.rows <==> d in s.diaries.rows && s.diaries.rows[d].userId != u
    ensures forall e :: e in r.entries.rows <==> e in s.entries.rows && !EntryOwnedBy(s, e, u)
    ensures forall c :: c in r.comments.rows <==>
              c in s.comments.rows && s.comments.rows[c].userId != u
              && !EntryOwnedBy(s, s.comments.rows[c].entryId, u)
    ensures forall l :: l in r.likes.rows <==>
              l in s.likes.rows && s.likes.rows[l].userId != u
              && !EntryOwnedBy(s, s.likes.rows[l].entryId, u)
    ensures forall d :: d in r.diaries.rows ==> r.diaries.rows[d] == s.diaries.rows[d]
    ensures forall e :: e in r.entries.rows ==> r.entries.rows[e] == s.entries.rows[e]
    ensures forall c :: c in r.comments.rows ==> r.comments.rows[c] == s.comments.rows[c]
    ensures forall l :: l in r.likes.rows ==> r.likes.rows[l] == s.likes.rows[l]
  {
    s.(users := Remove(s.users, u),
       diaries := Keep(s.diaries, (d: Diary) => d.userId != u),
       entries := Keep(s.entries, (e: Entry) =>
                    !(e.diaryId in s.diaries.rows && s.diaries.rows[e.diaryId].userId == u)),
       comments := Keep(s.comments, (c: Comment) => c.userId != u && !EntryOwnedBy(s, c.entryId, u)),
       likes := Keep(s.likes, (l: Like) => l.userId != u && !EntryOwnedBy(s, l.entryId, u)))
  }

  /** The likes the entry cascade keeps still point at kept entries. */
  lemma DeleteEntryKeepsLikeTargets(s: Store, e: Id)
    requires LikeTargetsExist(s)
    ensures LikeTargetsExist(DeleteEntryCascade(s, e))
  {
    var r := DeleteEntryCascade(s, e);
    forall l | l in r.likes.rows
      ensures r.likes.rows[l].userId in r.users.rows && r.likes.rows[l].entryId in r.entries.rows
    {
      assert r.likes.rows[l] == s.likes.rows[l];
    }
  }

  /** The comments the entry cascade keeps still point at kept entries. */
  lemma DeleteEntryKeepsCommentTargets(s: Store, e: Id)
    requires CommentTargetsExist(s)
    ensures CommentTargetsExist(DeleteEntryCascade(s, e))
  {
    var r := DeleteEntryCascade(s, e);
    forall c | c in r.comments.rows
      ensures r.comments.rows[c].userId in r.users.rows && r.comments.rows[c].entryId in r.entries.rows
    {
      assert r.comments.rows[c] == s.comments.rows[c];
    }
  }

  /** The entry cascade leaves no comment or like pointing at the deleted entry. */
  lemma DeleteEntryKeepsWf(s: Store, e: Id)
    requires Wf(s)
    ensures Wf(DeleteEntryCascade(s, e))
    ensures OneLikePerUserAndEntry(s) ==> OneLikePerUserAndEntry(DeleteEntryCascade(s, e))
    ensures NoRepeatedTags(s) ==> NoRepeatedTags(DeleteEntryCascade(s, e))
  {
    DeleteEntryKeepsLikeTargets(s, e);
    DeleteEntryKeepsCommentTargets(s, e);
  }

  /** The diary cascade leaves no entry, comment or like pointing at a deleted row. */
  lemma DeleteDiaryKeepsWf(s: Store, d: Id)
    requires Wf(s)
    ensures Wf(DeleteDiaryCascade(s, d))
    ensures OneLikePerUserAndEntry(s) ==> OneLikePerUserAndEntry(DeleteDiaryCascade(s, d))
    ensures NoRepeatedTags(s) ==> NoRepeatedTags(DeleteDiaryCascade(s, d))
  {
    var r := DeleteDiaryCascade(s, d);
    assert UniqueEmails(r) && DiaryUsersExist(r) && EntryDiariesExist(r) && EntryTagsExist(r);
    assert LikeTargetsExist(r);
    assert CommentTargetsExist(r);
  }

  /** The entries the user cascade keeps lie in kept diaries. */
  lemma DeleteUserKeepsEntryDiaries(s: Store, u: Id)
    requires EntryDiariesExist(s)
    ensures EntryDiariesExist(DeleteUserCascade(s, u))
  {
    var r := DeleteUserCascade(s, u);
    forall e | e in r.entries.rows
      ensures r.entries.rows[e].diaryId in r.diaries.rows
    {
      assert !EntryOwnedBy(s, e, u);
    }
  }

  /** The likes the user cascade keeps point at kept users and entries. */
  lemma DeleteUserKeepsLikeTargets(s: Store, u: Id)
    requires LikeTargetsExist(s)
    ensures LikeTargetsExist(DeleteUserCascade(s, u))
  {
    var r := DeleteUserCascade(s, u);
    forall l | l in r.likes.rows
      ensures r.likes.rows[l].userId in r.users.rows && r.likes.rows[l].entryId in r.entries.rows
    {
      assert r.likes.rows[l] == s.likes.rows[l];
      assert !EntryOwnedBy(s, s.likes.rows[l].entryId, u);
    }
  }

  /** The comments the user cascade keeps point at kept users and entries. */
  lemma DeleteUserKeepsCommentTargets(s: Store, u: Id)
    requires CommentTargetsExist(s)
    ensures CommentTargetsExist(DeleteUserCascade(s, u))
  {
    var r := DeleteUserCascade(s, u);
    forall c | c in r.comments.rows
      ensures r.comments.rows[c].userId in r.users.rows && r.comments.rows[c].entryId in r.entries.rows
    {
      assert r.comments.rows[c] == s.comments.rows[c];
      assert !EntryOwnedBy(s, s.comments.rows[c].entryId, u);
    }
  }

  /** After the user cascade no row refers to the deleted user, every entry of
      the user's diaries is gone, and the store is still well formed. */
  lemma DeleteUserLeavesNoReference(s: Store, u: Id)
    requires Wf(s)
    ensures var r := DeleteUserCascade(s, u);
      && Wf(r)
      && (forall d :: d in r.diaries.rows ==> r.diaries.rows[d].userId != u)
      && (forall c :: c in r.comments.rows ==> r.comments.rows[c].userId != u)
      && (forall l :: l in r.likes.rows ==> r.likes.rows[l].userId != u)
      && (forall e :: e in s.entries.rows && EntryOwnedBy(s, e, u) ==> e !in r.entries.rows)
  {
    DeleteUserKeepsEntryDiaries(s, u);
    DeleteUserKeepsLikeTargets(s, u);
    DeleteUserKeepsCommentTargets(s, u);
  }
}
