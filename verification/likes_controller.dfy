/** The handlers of the `/likes` blueprint. Likes are listed and read by
    anyone; a like is created for an existing entry at most once per user,
    and deleted by the user who made it only. */
module LikesController {
  import opened Wrappers
  import opened Seqs
  import opened Tables
  import opened Models
  import opened Http
  import opened Schemas

  /** `get_likes`: the likes on an existing entry, in key order. */
  function GetLikes(s: Store, entryId: Id): (r: Reply<seq<Id>>)
    ensures r.store == s
    ensures r.status == NotFound <==> entryId !in s.entries.rows
    ensures r.status == Ok <==> entryId in s.entries.rows
    ensures r.status == Ok ==>
              && r.value.Some?
              && Increasing(r.value.value)
              && forall l :: l in r.value.value <==> l in s.likes.rows && s.likes.rows[l].entryId == entryId
  {
    if entryId !in s.entries.rows then Refuse(NotFound, s)
    else Reply(Ok, s, Some(LikesOfEntry(s, entryId)))
  }

  /** `get_like`: any like by id. */
  function GetLike(s: Store, likeId: Id): (r: Reply<Like>)
    ensures r.store == s
    ensures r.status == NotFound <==> likeId !in s.likes.rows
    ensures r.status == Ok <==> likeId in s.likes.rows
    ensures r.status == Ok ==> r.value == Some(s.likes.rows[likeId])
  {
    if likeId !in s.likes.rows then Refuse(NotFound, s)
    else Reply(Ok, s, Some(s.likes.rows[likeId]))
  }

  /** `user` already likes entry `e`. */
  predicate Likes(s: Store, user: Id, e: Id) {
    exists l :: l in s.likes.rows && s.likes.rows[l] == Like(user, e)
  }

  /** `any(like.user_id == user.id for like in entry.likes)`, over the
      entry's likes in key order. */
  function AlreadyLiked(s: Store, caller: Id, entryId: Id): (b: bool)
    ensures b <==> Likes(s, caller, entryId)
  {
    var likes := LikesOfEntry(s, entryId);
    exists l :: l in likes && s.likes.rows[l].userId == caller
  }

  /** `create_like`: the body is loaded first; this blueprint has no handler
      for the `ValidationError` a missing `entry_id` raises, so that request
      ends in a 500. Then the entry must exist; `user.id` is read next (in
      the scan over the entry's likes, or when the like is built if there are
      none), and the caller must not like the entry yet. */
  function CreateLike(s: Store, caller: Id, b: LikeBody): (r: Reply<Id>)
    ensures ErrorsChangeNothing(r, s)
    ensures r.status == ServerError <==>
              LoadLike(b).Failure? || (Get(s.entries, LoadLike(b).value).Some? && !KnownUser(s, caller))
    ensures r.status == NotFound <==> LoadLike(b).Success? && Get(s.entries, LoadLike(b).value).None?
    ensures r.status == Conflict <==>
              LoadLike(b).Success? && Get(s.entries, LoadLike(b).value).Some? && KnownUser(s, caller)
              && Likes(s, caller, LoadLike(b).value as Id)
    ensures r.status == Created <==>
              LoadLike(b).Success? && Get(s.entries, LoadLike(b).value).Some? && KnownUser(s, caller)
              && !Likes(s, caller, LoadLike(b).value as Id)
    ensures r.status == Created ==>
              && r.value.Some?
              && r.value.value !in s.likes.rows
              && r.store == s.(likes := r.store.likes)
              && r.store.likes.rows == s.likes.rows[r.value.value := Like(caller, LoadLike(b).value as Id)]
  {
    match LoadLike(b)
    case Failure(_) => Refuse(ServerError, s)
    case Success(entryId) =>
      if Get(s.entries, entryId).None? then Refuse(NotFound, s)
      else if !KnownUser(s, caller) then Refuse(ServerError, s)
      else if AlreadyLiked(s, caller, entryId as Id) then Refuse(Conflict, s)
      else
        var (id, likes) := Insert(s.likes, Like(caller, entryId as Id));
        Reply(Created, s.(likes := likes), Some(id))
  }

  /** `create_like` keeps at most one like per user and entry, so liking an
      entry a second time changes nothing. */
  lemma CreateLikeKeepsOneLike(s: Store, caller: Id, b: LikeBody)
    requires OneLikePerUserAndEntry(s)
    ensures OneLikePerUserAndEntry(CreateLike(s, caller, b).store)
    ensures CreateLike(s, caller, b).status == Created ==>
              var s' := CreateLike(s, caller, b).store;
              && CreateLike(s', caller, b).status == Conflict
              && CreateLike(s', caller, b).store == s'
  {
    var r := CreateLike(s, caller, b);
    if r.status == Created {
      var id := r.value.value;
      assert r.store.likes.rows[id] == Like(caller, b.entryId.value as Id);
      assert Likes(r.store, caller, b.entryId.value as Id);
    }
  }

  /** A like is stored only for an existing caller on an existing entry, so
      the store stays well formed. */
  lemma CreateLikeKeepsWf(s: Store, caller: Id, b: LikeBody)
    requires Wf(s)
    ensures Wf(CreateLike(s, caller, b).store)
  {
  }

  /** `delete_like`: the like must exist, then `user.id` is read, and only
      the user who made the like deletes it. */
  function DeleteLike(s: Store, caller: Id, likeId: Id): (r: Reply<()>)
    ensures ErrorsChangeNothing(r, s)
    ensures r.status == NotFound <==> likeId !in s.likes.rows
    ensures r.status == ServerError <==> likeId in s.likes.rows && !KnownUser(s, caller)
    ensures r.status == Forbidden <==>
              likeId in s.likes.rows && KnownUser(s, caller) && s.likes.rows[likeId].userId != caller
    ensures r.status == Ok <==>
              likeId in s.likes.rows && KnownUser(s, caller) && s.likes.rows[likeId].userId == caller
    ensures r.status == Ok ==>
              && r.store == s.(likes := r.store.likes)
              && r.store.likes.rows == s.likes.rows - {likeId}
  {
    if likeId !in s.likes.rows then Refuse(NotFound, s)
    else if !KnownUser(s, caller) then Refuse(ServerError, s)
    else if s.likes.rows[likeId].userId != caller then Refuse(Forbidden, s)
    else Reply(Ok, s.(likes := Remove(s.likes, likeId)), Some(()))
  }

  /** Removing one's own like keeps the store well formed and keeps at most
      one like per user and entry; afterwards the caller may like the entry again. */
  lemma DeleteLikeKeepsInvariants(s: Store, caller: Id, likeId: Id)
    requires KnownUser(s, caller) && likeId in s.likes.rows && s.likes.rows[likeId].userId == caller
    ensures Wf(s) ==> Wf(DeleteLike(s, caller, likeId).store)
    ensures OneLikePerUserAndEntry(s) ==>
              && OneLikePerUserAndEntry(DeleteLike(s, caller, likeId).store)
              && !Likes(DeleteLike(s, caller, likeId).store, caller, s.likes.rows[likeId].entryId)
  {
    var s' := DeleteLike(s, caller, likeId).store;
    if OneLikePerUserAndEntry(s) {
      var e := s.likes.rows[likeId].entryId;
      forall l | l in s'.likes.rows
        ensures s'.likes.rows[l] != Like(caller, e)
      {
        assert l != likeId && s'.likes.rows[l] == s.likes.rows[l];
      }
    }
  }
}
