/** The handlers of the `/comments` blueprint. Comments are listed and read
    by anyone; any user comments on any existing entry, whatever its diary's
    privacy; only the author changes or deletes a comment. */
module CommentsController {
  import opened Wrappers
  import opened Seqs
  import opened Tables
  import opened Fields
  import opened Models
  import opened Http
  import opened Schemas

  /** `get_comments`: the comments on an existing entry, in key order. */
  function GetComments(s: Store, entryId: Id): (r: Reply<seq<Id>>)
    ensures r.store == s
    ensures r.status == NotFound <==> entryId !in s.entries.rows
    ensures r.status == Ok <==> entryId in s.entries.rows
    ensures r.status == Ok ==>
              && r.value.Some?
              && Increasing(r.value.value)
              && forall c :: c in r.value.value <==> c in s.comments.rows && s.comments.rows[c].entryId == entryId
  {
    if entryId !in s.entries.rows then Refuse(NotFound, s)
    else Reply(Ok, s, Some(Select(s.comments, (c: Comment) => c.entryId == entryId)))
  }

  /** `get_comment`: any comment by id. */
  function GetComment(s: Store, commentId: Id): (r: Reply<Comment>)
    ensures r.store == s
    ensures r.status == NotFound <==> commentId !in s.comments.rows
    ensures r.status == Ok <==> commentId in s.comments.rows
    ensures r.status == Ok ==> r.value == Some(s.comments.rows[commentId])
  {
    if commentId !in s.comments.rows then Refuse(NotFound, s)
    else Reply(Ok, s, Some(s.comments.rows[commentId]))
  }

  /** The part of `create_comment` after the body is loaded: the entry must
      exist, then `user.id` is read; no ownership or privacy check follows. */
  function PostComment(s: Store, caller: Id, data: CommentData): (r: Reply<Id>)
    ensures ErrorsChangeNothing(r, s)
    ensures r.status == NotFound <==> Get(s.entries, data.entryId).None?
    ensures r.status == ServerError <==> Get(s.entries, data.entryId).Some? && !KnownUser(s, caller)
    ensures r.status == Created <==> Get(s.entries, data.entryId).Some? && KnownUser(s, caller)
    ensures r.status == Created ==>
              && r.value.Some?
              && r.value.value !in s.comments.rows
              && r.store == s.(comments := r.store.comments)
              && r.store.comments.rows == s.comments.rows[r.value.value := Comment(data.content, caller, data.entryId as Id)]
  {
    if Get(s.entries, data.entryId).None? then Refuse(NotFound, s)
    else if !KnownUser(s, caller) then Refuse(ServerError, s)
    else
      var ins := Insert(s.comments, Comment(data.content, caller, data.entryId as Id));
      Reply(Created, s.(comments := ins.1), Some(ins.0))
  }

  /** `create_comment`: the body is validated before the entry is looked up. */
  function CreateComment(s: Store, caller: Id, b: CommentBody): (r: Reply<Id>)
    ensures ErrorsChangeNothing(r, s)
    ensures r.status == BadRequest <==> LoadComment(b).Failure?
    ensures LoadComment(b).Success? ==> r == PostComment(s, caller, LoadComment(b).value)
  {
    match LoadComment(b)
    case Failure(_) => Refuse(BadRequest, s)
    case Success(data) => PostComment(s, caller, data)
  }

  /** Any user may comment on any entry, private diary or not, and the
      comment is the caller's with the body's content stripped. */
  lemma AnyoneMayComment(s: Store, caller: Id, content: string, e: Id)
    requires KnownUser(s, caller)
    requires e in s.entries.rows && Strip(content) != []
    ensures var r := CreateComment(s, caller, CommentBody(Some(VStr(content)), Some(e)));
      && r.status == Created
      && r.store.comments.rows[r.value.value] == Comment(Strip(content), caller, e)
  {
  }

  /** A comment is stored only for an existing caller on an existing entry,
      so the store stays well formed. */
  lemma CreateCommentKeepsWf(s: Store, caller: Id, b: CommentBody)
    requires Wf(s)
    ensures Wf(CreateComment(s, caller, b).store)
  {
    var r := CreateComment(s, caller, b);
    if r.status == Created {
      var id := r.value.value;
      assert CommentTargetsExist(r.store) by {
        forall c | c in r.store.comments.rows
          ensures r.store.comments.rows[c].userId in r.store.users.rows
          ensures r.store.comments.rows[c].entryId in r.store.entries.rows
        {
          if c != id {
            assert r.store.comments.rows[c] == s.comments.rows[c];
          }
        }
      }
    }
  }

  /** Comment `c` exists and was written by user `u`. */
  predicate AuthorOf(s: Store, u: Id, c: Id) {
    c in s.comments.rows && s.comments.rows[c].userId == u
  }

  /** The checks of `update_comment` and `delete_comment`: the comment must
      exist, then `user.id` is read, then the caller must be its author.
      `None` lets the request through. */
  function CommentAccess(s: Store, caller: Id, commentId: Id): (r: Option<Status>)
    ensures r.None? <==> AuthorOf(s, caller, commentId) && KnownUser(s, caller)
    ensures r == Some(NotFound) <==> commentId !in s.comments.rows
    ensures r == Some(ServerError) <==> commentId in s.comments.rows && !KnownUser(s, caller)
    ensures r == Some(Forbidden) <==> commentId in s.comments.rows && KnownUser(s, caller) && !AuthorOf(s, caller, commentId)
    ensures r.Some? ==> r.value.IsError()
  {
    if commentId !in s.comments.rows then Some(NotFound)
    else if !KnownUser(s, caller) then Some(ServerError)
    else if s.comments.rows[commentId].userId != caller then Some(Forbidden)
    else None
  }

  /** `update_comment`: after the access checks the whole body is validated
      (`entry_id` included), but only `content` is written. */
  function UpdateComment(s: Store, caller: Id, commentId: Id, b: CommentBody): (r: Reply<Comment>)
    ensures ErrorsChangeNothing(r, s)
    ensures r.status == NotFound <==> commentId !in s.comments.rows
    ensures r.status == ServerError <==> commentId in s.comments.rows && !KnownUser(s, caller)
    ensures r.status == Forbidden <==> commentId in s.comments.rows && KnownUser(s, caller) && !AuthorOf(s, caller, commentId)
    ensures r.status == BadRequest <==> AuthorOf(s, caller, commentId) && KnownUser(s, caller) && LoadComment(b).Failure?
    ensures r.status == Ok <==> AuthorOf(s, caller, commentId) && KnownUser(s, caller) && LoadComment(b).Success?
    ensures r.status == Ok ==>
              && r.value == Some(s.comments.rows[commentId].(content := LoadComment(b).value.content))
              && r.store == s.(comments := r.store.comments)
              && r.store.comments.rows == s.comments.rows[commentId := r.value.value]
  {
    match CommentAccess(s, caller, commentId)
    case Some(st) => Refuse(st, s)
    case None =>
      match LoadComment(b)
      case Failure(_) => Refuse(BadRequest, s)
      case Success(data) =>
        var c := s.comments.rows[commentId].(content := data.content);
        Reply(Ok, s.(comments := Update(s.comments, commentId, c)), Some(c))
  }

  /** A successful `update_comment` keeps the comment's author and entry,
      whatever `entry_id` the body names, and keeps the store well formed. */
  lemma UpdateCommentKeepsAuthorAndEntry(s: Store, caller: Id, commentId: Id, b: CommentBody)
    requires UpdateComment(s, caller, commentId, b).status == Ok
    ensures var c := UpdateComment(s, caller, commentId, b).store.comments.rows[commentId];
      && c.userId == caller == s.comments.rows[commentId].userId
      && c.entryId == s.comments.rows[commentId].entryId
      && c.content == Strip(b.content.value.s)
  {
  }

  /** Replacing a comment by one whose author and entry exist keeps the store well formed. */
  lemma ReplaceCommentKeepsWf(s: Store, commentId: Id, c: Comment)
    requires Wf(s) && commentId in s.comments.rows
    requires c.userId in s.users.rows && c.entryId in s.entries.rows
    ensures Wf(s.(comments := Update(s.comments, commentId, c)))
  {
    var s' := s.(comments := Update(s.comments, commentId, c));
    forall x | x in s'.comments.rows
      ensures s'.comments.rows[x].userId in s'.users.rows && s'.comments.rows[x].entryId in s'.entries.rows
    {
      if x != commentId {
        assert s'.comments.rows[x] == s.comments.rows[x];
      }
    }
  }

  /** Changing a comment's content keeps the store well formed. */
  lemma UpdateCommentKeepsWf(s: Store, caller: Id, commentId: Id, b: CommentBody)
    requires Wf(s)
    ensures Wf(UpdateComment(s, caller, commentId, b).store)
  {
    var r := UpdateComment(s, caller, commentId, b);
    if r.status == Ok {
      ReplaceCommentKeepsWf(s, commentId, r.value.value);
      assert r.store == s.(comments := Update(s.comments, commentId, r.value.value));
    }
  }

  /** `delete_comment`: only the author deletes, and only that comment goes. */
  function DeleteComment(s: Store, caller: Id, commentId: Id): (r: Reply<()>)
    ensures ErrorsChangeNothing(r, s)
    ensures r.status == NotFound <==> commentId !in s.comments.rows
    ensures r.status == ServerError <==> commentId in s.comments.rows && !KnownUser(s, caller)
    ensures r.status == Forbidden <==> commentId in s.comments.rows && KnownUser(s, caller) && !AuthorOf(s, caller, commentId)
    ensures r.status == Ok <==> AuthorOf(s, caller, commentId) && KnownUser(s, caller)
    ensures r.status == Ok ==>
              && r.store == s.(comments := r.store.comments)
              && r.store.comments.rows == s.comments.rows - {commentId}
  {
    match CommentAccess(s, caller, commentId)
    case Some(st) => Refuse(st, s)
    case None => Reply(Ok, s.(comments := Remove(s.comments, commentId)), Some(()))
  }

  /** Deleting a comment keeps the store well formed. */
  lemma DeleteCommentKeepsWf(s: Store, caller: Id, commentId: Id)
    requires Wf(s)
    ensures Wf(DeleteComment(s, caller, commentId).store)
  {
  }
}
