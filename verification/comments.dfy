/** The comment controller: adding, deleting and editing comments. Deleting
    and editing are allowed to the comment's own author or to an admin; the
    author of the post commented on gains nothing. */
module Comments {
  import opened Wrappers
  import opened Text
  import opened Collections
  import opened Documents
  import opened Http
  import opened Auth

  /** The moderation rule of the comment handlers: the caller wrote the
      comment, or the caller's role is "admin". */
  predicate CanModerate(caller: Caller, callerId: ObjectId, c: Comment) {
    c.userId == callerId || IsAdmin(caller)
  }

  /** `safeObjectId(post_id)` in `addComment`. A missing `post_id` reaches
      `new ObjectId(undefined)`, which does not throw but generates an id:
      `generated` here. A present one is parsed. */
  function PostIdOf(parseId: IdParser, rawPostId: Option<string>, generated: ObjectId): Option<ObjectId> {
    match rawPostId
    case None => Some(generated)
    case Some(raw) => parseId(raw)
  }

  /** `addComment`. The checks come in this order: 400 malformed `post_id`,
      401 no caller id, 400 text all white space. Whether the post exists is
      not checked, and a missing `post_id` is not refused: the comment is
      filed under a newly generated id that no post has. On success exactly
      one comment is added, by the caller, with the trimmed text and the
      name from the token or "User". */
  function AddComment(parseId: IdParser, s: Store, caller: Caller, rawPostId: Option<string>, text: Option<string>, now: nat): (out: Reply)
    ensures out.response.status != Created ==> out.store == s
    ensures rawPostId.Some? && parseId(rawPostId.value).None? ==> out.response == Fail(BadRequest, "Invalid post_id")
    ensures (PostIdOf(parseId, rawPostId, ObjectId(s.nextId + 1)).Some? && CallerId(parseId, caller).None?) ==>
      out.response == Fail(Unauthorized, "Unauthorized")
    ensures (PostIdOf(parseId, rawPostId, ObjectId(s.nextId + 1)).Some? && CallerId(parseId, caller).Some?
      && Trim(FieldText(text)) == []) ==>
      out.response == Fail(BadRequest, "Text is required")
    ensures out.response.status == Created <==>
      && (rawPostId.None? || parseId(rawPostId.value).Some?)
      && CallerId(parseId, caller).Some? && Trim(FieldText(text)) != []
    ensures out.response.status == Created ==>
      && out.response == Response(Created, Message("Comment added"))
      && out.store.users == s.users && out.store.posts == s.posts
      && |out.store.comments| == |s.comments| + 1
      && out.store.comments[..|s.comments|] == s.comments
      && var c := out.store.comments[|s.comments|];
      && (rawPostId.Some? ==> c.postId == parseId(rawPostId.value).value && out.store.nextId == s.nextId + 1)
      && (rawPostId.None? ==> out.store.nextId == s.nextId + 2)
      && (rawPostId.None? && Valid(s) ==>
            !HasPost(s.posts, c.postId) && forall k :: 0 <= k < |s.comments| ==> s.comments[k].id != c.postId)
      && c.userId == CallerId(parseId, caller).value
      && c.text == Trim(FieldText(text)) && c.text != []
      && c.authorName == AuthorName(caller)
      && c.createdAt == now
      && (Valid(s) ==> forall k :: 0 <= k < |s.comments| ==> s.comments[k].id != c.id)
    ensures Valid(s) ==> Valid(out.store)
  {
    var next := if rawPostId.None? then s.nextId + 2 else s.nextId + 1;
    match PostIdOf(parseId, rawPostId, ObjectId(s.nextId + 1))
    case None => Reply(s, Fail(BadRequest, "Invalid post_id"))
    case Some(pid) =>
      match CallerId(parseId, caller)
      case None => Reply(s, Fail(Unauthorized, "Unauthorized"))
      case Some(uid) =>
        var clean := Trim(FieldText(text));
        if clean == [] then Reply(s, Fail(BadRequest, "Text is required"))
        else
          var c := Comment(ObjectId(s.nextId), pid, uid, AuthorName(caller), clean, now);
          var s' := s.(comments := s.comments + [c], nextId := next);
          assert s'.comments[..|s.comments|] == s.comments;
          assert Valid(s) ==> Valid(s') by {
            if Valid(s) { InsertCommentKeepsValid(s, c, next); }
          }
          Reply(s', Response(Created, Message("Comment added")))
  }

  /** `deleteComment`. The checks come in this order: 400 malformed id, 401
      no caller id, 404 no such comment, 403 neither its author nor an admin.
      On success exactly that comment is removed. */
  function DeleteComment(parseId: IdParser, s: Store, caller: Caller, rawId: string): (out: Reply)
    ensures out.response.status != Ok ==> out.store == s
    ensures parseId(rawId).None? ==> out.response == Fail(BadRequest, "Invalid comment id")
    ensures (parseId(rawId).Some? && CallerId(parseId, caller).None?) ==>
      out.response == Fail(Unauthorized, "Unauthorized")
    ensures (parseId(rawId).Some? && CallerId(parseId, caller).Some?
      && FindComment(s.comments, parseId(rawId).value).None?) ==>
      out.response == Fail(NotFound, "Comment not found")
    ensures (parseId(rawId).Some? && CallerId(parseId, caller).Some?
      && FindComment(s.comments, parseId(rawId).value).Some?) ==>
      var i := FindComment(s.comments, parseId(rawId).value).value;
      if CanModerate(caller, CallerId(parseId, caller).value, s.comments[i])
      then
        && out.response == Response(Ok, Message("Comment deleted"))
        && out.store.users == s.users && out.store.posts == s.posts && out.store.nextId == s.nextId
        && multiset(out.store.comments) == multiset(s.comments) - multiset{s.comments[i]}
        && out.store.comments == s.comments[..i] + s.comments[i + 1..]
      else out.response == Fail(Forbidden, "Forbidden")
    ensures Valid(s) ==> Valid(out.store)
  {
    match parseId(rawId)
    case None => Reply(s, Fail(BadRequest, "Invalid comment id"))
    case Some(cid) =>
      match CallerId(parseId, caller)
      case None => Reply(s, Fail(Unauthorized, "Unauthorized"))
      case Some(uid) =>
        match FindComment(s.comments, cid)
        case None => Reply(s, Fail(NotFound, "Comment not found"))
        case Some(i) =>
          if !CanModerate(caller, uid, s.comments[i]) then Reply(s, Fail(Forbidden, "Forbidden"))
          else
            assert Valid(s) ==> Valid(s.(comments := RemoveAt(s.comments, i))) by {
              if Valid(s) { RemoveCommentKeepsValid(s, i); }
            }
            Reply(s.(comments := RemoveAt(s.comments, i)), Response(Ok, Message("Comment deleted")))
  }

  /** `updateComment`. The checks come in this order: 400 malformed id, 401
      no caller id, 400 text all white space, 404 no such comment, 403
      neither its author nor an admin. On success only that comment's text
      changes. */
  function UpdateComment(parseId: IdParser, s: Store, caller: Caller, rawId: string, text: Option<string>): (out: Reply)
    ensures out.response.status != Ok ==> out.store == s
    ensures parseId(rawId).None? ==> out.response == Fail(BadRequest, "Invalid comment id")
    ensures (parseId(rawId).Some? && CallerId(parseId, caller).None?) ==>
      out.response == Fail(Unauthorized, "Unauthorized")
    ensures (parseId(rawId).Some? && CallerId(parseId, caller).Some? && Trim(FieldText(text)) == []) ==>
      out.response == Fail(BadRequest, "Text is required")
    ensures (parseId(rawId).Some? && CallerId(parseId, caller).Some? && Trim(FieldText(text)) != []
      && FindComment(s.comments, parseId(rawId).value).None?) ==>
      out.response == Fail(NotFound, "Comment not found")
    ensures (parseId(rawId).Some? && CallerId(parseId, caller).Some? && Trim(FieldText(text)) != []
      && FindComment(s.comments, parseId(rawId).value).Some?) ==>
      var i := FindComment(s.comments, parseId(rawId).value).value;
      if CanModerate(caller, CallerId(parseId, caller).value, s.comments[i])
      then
        && out.response == Response(Ok, Message("Comment updated"))
        && OnlyCommentChanged(s, out.store, i, s.comments[i].(text := Trim(FieldText(text))))
      else out.response == Fail(Forbidden, "Forbidden")
    ensures Valid(s) ==> Valid(out.store)
  {
    match parseId(rawId)
    case None => Reply(s, Fail(BadRequest, "Invalid comment id"))
    case Some(cid) =>
      match CallerId(parseId, caller)
      case None => Reply(s, Fail(Unauthorized, "Unauthorized"))
      case Some(uid) =>
        var clean := Trim(FieldText(text));
        if clean == [] then Reply(s, Fail(BadRequest, "Text is required"))
        else
          match FindComment(s.comments, cid)
          case None => Reply(s, Fail(NotFound, "Comment not found"))
          case Some(i) =>
            if !CanModerate(caller, uid, s.comments[i]) then Reply(s, Fail(Forbidden, "Forbidden"))
            else
              Reply(WithComment(s, i, s.comments[i].(text := clean)), Response(Ok, Message("Comment updated")))
  }
}
