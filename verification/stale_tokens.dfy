/** A token can outlive its user: `delete_user` needs no token, and a token
    names its user by email. Every handler that takes a caller then finds no
    user row, and the first `user.id` it reads raises. This module gathers
    those handlers behind one request type and shows that such a caller
    never gets a success and never changes the store. */
module StaleTokens {
  import opened Tables
  import opened Models
  import opened Http
  import opened Schemas
  import EntriesController
  import DiariesController
  import LikesController
  import CommentsController

  /** The requests whose handler takes the caller. */
  datatype Request =
    | GetEntries(diaryId: Id)
    | GetEntry(entryId: Id)
    | CreateEntry(entryBody: EntryBody)
    | UpdateEntry(entryId: Id, entryBody: EntryBody)
    | DeleteEntry(entryId: Id)
    | AddTag(entryId: Id, tagId: Id)
    | RemoveTag(entryId: Id, tagId: Id)
    | GetDiaries
    | GetDiary(diaryId: Id)
    | CreateDiary(diaryBody: DiaryBody)
    | UpdateDiary(diaryId: Id, diaryBody: DiaryBody)
    | DeleteDiary(diaryId: Id)
    | CreateLike(likeBody: LikeBody)
    | DeleteLike(likeId: Id)
    | CreateComment(commentBody: CommentBody)
    | UpdateComment(commentId: Id, commentBody: CommentBody)
    | DeleteComment(commentId: Id)

  /** The status and the store after `q`, as its handler answers it. */
  function Handle(s: Store, caller: Id, q: Request): (r: (Status, Store))
    ensures r.0.IsError() ==> r.1 == s
  {
    match q
    case GetEntries(d) => var x := EntriesController.GetEntries(s, caller, d); (x.status, x.store)
    case GetEntry(e) => var x := EntriesController.GetEntry(s, caller, e); (x.status, x.store)
    case CreateEntry(b) => var x := EntriesController.CreateEntry(s, caller, b); (x.status, x.store)
    case UpdateEntry(e, b) => var x := EntriesController.UpdateEntry(s, caller, e, b); (x.status, x.store)
    case DeleteEntry(e) => var x := EntriesController.DeleteEntry(s, caller, e); (x.status, x.store)
    case AddTag(e, t) => var x := EntriesController.AddTag(s, caller, e, t); (x.status, x.store)
    case RemoveTag(e, t) => var x := EntriesController.RemoveTag(s, caller, e, t); (x.status, x.store)
    case GetDiaries => var x := DiariesController.GetDiaries(s, caller); (x.status, x.store)
    case GetDiary(d) => var x := DiariesController.GetDiary(s, caller, d); (x.status, x.store)
    case CreateDiary(b) => var x := DiariesController.CreateDiary(s, caller, b); (x.status, x.store)
    case UpdateDiary(d, b) => var x := DiariesController.UpdateDiary(s, caller, d, b); (x.status, x.store)
    case DeleteDiary(d) => var x := DiariesController.DeleteDiary(s, caller, d); (x.status, x.store)
    case CreateLike(b) => var x := LikesController.CreateLike(s, caller, b); (x.status, x.store)
    case DeleteLike(l) => var x := LikesController.DeleteLike(s, caller, l); (x.status, x.store)
    case CreateComment(b) => var x := CommentsController.CreateComment(s, caller, b); (x.status, x.store)
    case UpdateComment(c, b) => var x := CommentsController.UpdateComment(s, caller, c, b); (x.status, x.store)
    case DeleteComment(c) => var x := CommentsController.DeleteComment(s, caller, c); (x.status, x.store)
  }

  /** A caller with no user row is refused by every handler: a 404 or a 400
      when a lookup or the body fails first, a 500 otherwise, and never a
      403 or a 409. The store stays as it was. */
  lemma UnknownCallerChangesNothing(s: Store, caller: Id, q: Request)
    requires !KnownUser(s, caller)
    ensures var r := Handle(s, caller, q);
      && (r.0 == NotFound || r.0 == BadRequest || r.0 == ServerError)
      && r.1 == s
  {
  }

  /** After `delete_user`, a token still naming that user changes nothing. */
  lemma DeletedUserChangesNothing(s: Store, u: Id, q: Request)
    ensures var s' := DeleteUserCascade(s, u);
      && Handle(s', u, q).1 == s'
      && Handle(s', u, q).0 != Ok && Handle(s', u, q).0 != Created
  {
    UnknownCallerChangesNothing(DeleteUserCascade(s, u), u, q);
  }
}
