/** Properties that relate several handlers: round trips, the delete
    cascade against orphaned comments, the rules of who may change what,
    and the agreement of the read views with each other. */
module Lifecycle {
  import opened Wrappers
  import opened Text
  import opened Collections
  import opened Documents
  import opened Enrichment
  import opened Http
  import opened Auth
  import opened Posts
  import opened Comments
  import opened Users

  /** Removing the caller and adding them back restores who likes the post. */
  lemma PullThenAdd(before: Likes, uid: ObjectId)
    requires before.LikeList? && uid in before.ids
    ensures Likers(AddToSet(Pull(before, uid), uid)) == Likers(before)
  {
  }

  /** Adding the caller and removing them again restores the list itself. */
  lemma AddThenPull(before: Likes, uid: ObjectId)
    requires !before.NotAList? && uid !in LikeIds(before)
    ensures Pull(AddToSet(before, uid), uid) == LikeList(LikeIds(before))
  {
    FilterAppend(LikeIds(before), [uid], (x: ObjectId) => x != uid);
    FilterKeepsEverything(LikeIds(before), (x: ObjectId) => x != uid);
    assert Filter([uid], (x: ObjectId) => x != uid) == [];
  }

  /** A like toggle leaves the post where `findOne` finds it. */
  lemma LikeKeepsPostPosition(parseId: IdParser, s: Store, caller: Caller, rawId: string)
    requires LikePost(parseId, s, caller, rawId).response.status == Ok
    ensures var pid := parseId(rawId).value;
      FindPost(LikePost(parseId, s, caller, rawId).store.posts, pid) == FindPost(s.posts, pid)
  {
    var pid := parseId(rawId).value;
    var first := LikePost(parseId, s, caller, rawId);
    FirstIndexSameMatches(first.store.posts, (p: Post) => p.id == pid, s.posts, (p: Post) => p.id == pid);
  }

  /** One permitted toggle: the response says whether the caller now likes
      the post, the post is rewritten in place and is found where it was. */
  lemma LikeStep(parseId: IdParser, s: Store, caller: Caller, rawId: string, i: nat, uid: ObjectId)
    requires parseId(rawId).Some? && CallerId(parseId, caller) == Some(uid)
    requires FindPost(s.posts, parseId(rawId).value) == Some(i)
    requires !s.posts[i].likes.NotAList? || uid in LikeIds(s.posts[i].likes)
    ensures var before := s.posts[i].likes;
      var after := if uid in LikeIds(before) then Pull(before, uid) else AddToSet(before, uid);
      var out := LikePost(parseId, s, caller, rawId);
      && out.response == Response(Ok, Toggled(uid !in LikeIds(before)))
      && out.store == WithPost(s, i, s.posts[i].(likes := after))
      && FindPost(out.store.posts, parseId(rawId).value) == Some(i)
  {
    var pid := parseId(rawId).value;
    var out := LikePost(parseId, s, caller, rawId);
    FirstIndexSameMatches(out.store.posts, (p: Post) => p.id == pid, s.posts, (p: Post) => p.id == pid);
  }

  /** Rewriting the same post twice is rewriting it once, with the second
      version. */
  lemma WithPostTwice(s: Store, i: nat, p: Post, q: Post)
    requires i < |s.posts|
    ensures WithPost(WithPost(s, i, p), i, q) == WithPost(s, i, q)
  {
    assert s.posts[i := p][i := q] == s.posts[i := q];
  }

  /** Liking twice restores who likes the post and leaves everything else as
      it was; when `likes` was already an array without the caller, the whole
      database is back to where it started. */
  lemma LikeTwiceRestoresLikers(parseId: IdParser, s: Store, caller: Caller, rawId: string)
    requires LikePost(parseId, s, caller, rawId).response.status == Ok
    ensures var first := LikePost(parseId, s, caller, rawId);
      var second := LikePost(parseId, first.store, caller, rawId);
      var i := FindPost(s.posts, parseId(rawId).value).value;
      && second.response.status == Ok
      && second.response.body.liked == !first.response.body.liked
      && Likers(second.store.posts[i].likes) == Likers(s.posts[i].likes)
      && OnlyPostChanged(s, second.store, i, s.posts[i].(likes := second.store.posts[i].likes))
      && (s.posts[i].likes.LikeList? && CallerId(parseId, caller).value !in s.posts[i].likes.ids ==>
            second.store == s)
  {
    var first := LikePost(parseId, s, caller, rawId);
    var pid := parseId(rawId).value;
    var uid := CallerId(parseId, caller).value;
    var i := FindPost(s.posts, pid).value;
    var before := s.posts[i].likes;
    LikeStep(parseId, s, caller, rawId, i, uid);
    var after := if uid in LikeIds(before) then Pull(before, uid) else AddToSet(before, uid);
    var mid := s.posts[i].(likes := after);
    assert first.store.posts[i] == mid;
    LikeStep(parseId, first.store, caller, rawId, i, uid);
    var second := LikePost(parseId, first.store, caller, rawId);
    var again := if uid in LikeIds(after) then Pull(after, uid) else AddToSet(after, uid);
    WithPostTwice(s, i, mid, mid.(likes := again));
    assert second.store == WithPost(s, i, s.posts[i].(likes := again));
    if uid in LikeIds(before) {
      PullThenAdd(before, uid);
    } else {
      AddThenPull(before, uid);
      if before.LikeList? {
        assert s.posts[i].(likes := again) == s.posts[i];
        assert s.posts[i := s.posts[i]] == s.posts;
      }
    }
  }

  /** A post appended with an id no earlier post has is found at the end. */
  lemma AppendedPostFoundLast(posts: seq<Post>, p: Post)
    requires forall k :: 0 <= k < |posts| ==> posts[k].id != p.id
    ensures FindPost(posts + [p], p.id) == Some(|posts|)
  {
    var ps := posts + [p];
    assert ps[|posts|] == p;
    forall j | 0 <= j < |posts| ensures ps[j].id != p.id {
      assert ps[j] == posts[j];
    }
  }

  /** A comment appended with an id no earlier comment has is found at the
      end. */
  lemma AppendedCommentFoundLast(comments: seq<Comment>, c: Comment)
    requires forall k :: 0 <= k < |comments| ==> comments[k].id != c.id
    ensures FindComment(comments + [c], c.id) == Some(|comments|)
  {
    var cs := comments + [c];
    assert cs[|comments|] == c;
    forall j | 0 <= j < |comments| ensures cs[j].id != c.id {
      assert cs[j] == comments[j];
    }
  }

  /** Creating a post and deleting it again by the same caller gives back the
      database (only the id counter has moved on), provided no comment was
      already pointing at the id the new post receives. */
  lemma CreateThenDeletePost(parseId: IdParser, s: Store, caller: Caller, content: Option<string>, now: nat, rawId: string)
    requires Valid(s)
    requires CreatePost(parseId, s, caller, content, now).response.status == Created
    requires parseId(rawId) == Some(ObjectId(s.nextId))
    requires forall k :: 0 <= k < |s.comments| ==> s.comments[k].postId != ObjectId(s.nextId)
    ensures DeletePost(parseId, CreatePost(parseId, s, caller, content, now).store, caller, rawId)
      == Reply(s.(nextId := s.nextId + 1), Response(Ok, Message("Post and its comments deleted")))
  {
    var c := CreatePost(parseId, s, caller, content, now);
    var p := c.response.body.post;
    var pid := ObjectId(s.nextId);
    assert p.id == pid && c.store.posts == s.posts + [p];
    assert forall k :: 0 <= k < |s.posts| ==> s.posts[k].id != pid;
    AppendedPostFoundLast(s.posts, p);
    FilterKeepsEverything(s.comments, (cm: Comment) => cm.postId != pid);
    var s1 := RemoveCommentsOn(c.store, pid);
    assert s1 == c.store;
    assert RemovePostAt(s1, |s.posts|) == s.(nextId := s.nextId + 1);
  }

  /** Adding a comment and deleting it again by the same caller gives back
      the database (only the id counter has moved on). */
  lemma AddThenDeleteComment(parseId: IdParser, s: Store, caller: Caller, rawPostId: Option<string>, text: Option<string>, now: nat, rawId: string)
    requires Valid(s)
    requires AddComment(parseId, s, caller, rawPostId, text, now).response.status == Created
    requires parseId(rawId) == Some(ObjectId(s.nextId))
    ensures DeleteComment(parseId, AddComment(parseId, s, caller, rawPostId, text, now).store, caller, rawId)
      == Reply(s.(nextId := if rawPostId.None? then s.nextId + 2 else s.nextId + 1), Response(Ok, Message("Comment deleted")))
  {
    var pid := PostIdOf(parseId, rawPostId, ObjectId(s.nextId + 1)).value;
    var uid := CallerId(parseId, caller).value;
    var clean := Trim(FieldText(text));
    AddCommentAppends(parseId, s, caller, rawPostId, text, now, pid, uid, clean);
    var c := Comment(ObjectId(s.nextId), pid, uid, AuthorName(caller), clean, now);
    var cs := s.comments + [c];
    AppendedCommentFoundLast(s.comments, c);
    assert RemoveAt(cs, |s.comments|) == s.comments;
  }

  /** A freshly registered account can log in with the password it was
      registered with, and the login reports that account. */
  lemma RegisterThenLogin(hash: PasswordHasher, check: PasswordChecker, s: Store,
                          username: string, email: string, password: string, now: nat)
    requires RegisterUser(hash, s, username, email, Some(password), now).response.status == Created
    requires check(password, hash(password))
    ensures LoginUser(check, RegisterUser(hash, s, username, email, Some(password), now).store, email, Some(password))
      == Response(Ok, LoggedIn("Login successful", ObjectId(s.nextId), username))
  {
    var users := RegisterUser(hash, s, username, email, Some(password), now).store.users;
    assert FindUserByEmail(users, email) == Some(|s.users|) by {
      forall j | 0 <= j < |s.users| ensures users[j].email != email {
        assert users[j] == s.users[j];
      }
    }
  }

  /** A second registration with the same email is refused and changes
      nothing, whatever its password, even a missing one. */
  lemma RegisterTwiceRefused(hash: PasswordHasher, s: Store, username: string, email: string,
                             password: Option<string>, now: nat, username': string, password': Option<string>, now': nat)
    requires RegisterUser(hash, s, username, email, password, now).response.status == Created
    ensures var s1 := RegisterUser(hash, s, username, email, password, now).store;
      RegisterUser(hash, s1, username', email, password', now') == Reply(s1, Fail(BadRequest, "Email already exists"))
  {
    var s1 := RegisterUser(hash, s, username, email, password, now).store;
    assert s1.users[|s.users|].email == email;
  }

  /** Posts are the author's alone: an admin who did not write a post gets
      403 on editing or deleting it. */
  lemma AdminCannotChangeOthersPost(parseId: IdParser, s: Store, caller: Caller, rawId: string, content: Option<string>)
    requires IsAdmin(caller)
    requires parseId(rawId).Some? && CallerId(parseId, caller).Some? && Trim(FieldText(content)) != []
    requires FindPost(s.posts, parseId(rawId).value).Some?
    requires s.posts[FindPost(s.posts, parseId(rawId).value).value].userId != CallerId(parseId, caller).value
    ensures UpdatePost(parseId, s, caller, rawId, content) == Reply(s, Fail(Forbidden, "Forbidden"))
    ensures DeletePost(parseId, s, caller, rawId) == Reply(s, Fail(Forbidden, "Forbidden"))
  {
  }

  /** The content is validated before the post is looked up: someone who
      may not edit a post still gets 400, not 403 or 404, for blank
      content. */
  lemma BlankContentBeforeOwnership(parseId: IdParser, s: Store, caller: Caller, rawId: string, content: Option<string>)
    requires parseId(rawId).Some? && CallerId(parseId, caller).Some? && Blank(FieldText(content))
    ensures UpdatePost(parseId, s, caller, rawId, content) == Reply(s, Fail(BadRequest, "Content is required"))
  {
  }

  /** An admin may delete and edit any comment. */
  lemma AdminModeratesAnyComment(parseId: IdParser, s: Store, caller: Caller, rawId: string, text: Option<string>)
    requires IsAdmin(caller)
    requires parseId(rawId).Some? && CallerId(parseId, caller).Some? && Trim(FieldText(text)) != []
    requires FindComment(s.comments, parseId(rawId).value).Some?
    ensures DeleteComment(parseId, s, caller, rawId).response == Response(Ok, Message("Comment deleted"))
    ensures UpdateComment(parseId, s, caller, rawId, text).response == Response(Ok, Message("Comment updated"))
  {
  }

  /** Writing the post commented on grants nothing: a caller who is not an
      admin and did not write the comment gets 403 even on a comment under
      their own post. */
  lemma PostAuthorCannotModerateComments(parseId: IdParser, s: Store, caller: Caller, rawId: string, text: Option<string>)
    requires !IsAdmin(caller)
    requires parseId(rawId).Some? && CallerId(parseId, caller).Some? && Trim(FieldText(text)) != []
    requires FindComment(s.comments, parseId(rawId).value).Some?
    requires var c := s.comments[FindComment(s.comments, parseId(rawId).value).value];
      && c.userId != CallerId(parseId, caller).value
      && exists k :: 0 <= k < |s.posts| && s.posts[k].id == c.postId && s.posts[k].userId == CallerId(parseId, caller).value
    ensures DeleteComment(parseId, s, caller, rawId) == Reply(s, Fail(Forbidden, "Forbidden"))
    ensures UpdateComment(parseId, s, caller, rawId, text) == Reply(s, Fail(Forbidden, "Forbidden"))
  {
  }

  /** A comment whose post does not exist. */
  predicate Orphaned(s: Store, c: Comment) {
    c in s.comments && !HasPost(s.posts, c.postId)
  }

  /** Deleting a post never leaves a comment pointing at a missing post that
      was not already doing so: neither after the cascade's first step
      (comments removed, post still there) nor at the end. */
  lemma DeletePostCreatesNoOrphans(parseId: IdParser, s: Store, caller: Caller, rawId: string, c: Comment)
    requires Valid(s)
    requires DeletePost(parseId, s, caller, rawId).response.status == Ok
    ensures Orphaned(RemoveCommentsOn(s, parseId(rawId).value), c) ==> Orphaned(s, c)
    ensures Orphaned(DeletePost(parseId, s, caller, rawId).store, c) ==> Orphaned(s, c)
  {
    var i := FindPost(s.posts, parseId(rawId).value).value;
    assert DeletePost(parseId, s, caller, rawId).store == Cascade(s, i);
    CascadeCreatesNoOrphans(s, i, c);
  }

  /** The cascade itself orphans nothing. */
  lemma CascadeCreatesNoOrphans(s: Store, i: nat, c: Comment)
    requires i < |s.posts|
    ensures Orphaned(Cascade(s, i), c) ==> Orphaned(s, c)
  {
    var after := Cascade(s, i);
    if c in after.comments && HasPost(s.posts, c.postId) {
      var k :| 0 <= k < |s.posts| && s.posts[k].id == c.postId;
      assert s.posts[k] in after.posts;
      var m :| 0 <= m < |after.posts| && after.posts[m] == s.posts[k];
    }
  }

  /** The opposite order would be wrong: removing the post first leaves each
      of its comments orphaned until they are removed. */
  lemma PostFirstWouldOrphan(s: Store, i: nat, c: Comment)
    requires Valid(s) && i < |s.posts|
    requires c in s.comments && c.postId == s.posts[i].id
    ensures Orphaned(RemovePostAt(s, i), c)
  {
    var s' := RemovePostAt(s, i);
    forall k | 0 <= k < |s'.posts| ensures s'.posts[k].id != c.postId {
      var k' := if k < i then k else k + 1;
      assert s'.posts[k] == s.posts[k'];
      assert IdOfPost(s.posts[k']) != IdOfPost(s.posts[i]);
    }
  }

  /** Adding a comment does not look for its post, so it can create an
      orphan. */
  lemma AddCommentMayOrphan(parseId: IdParser, s: Store, caller: Caller, rawPostId: Option<string>, text: Option<string>, now: nat)
    requires AddComment(parseId, s, caller, rawPostId, text, now).response.status == Created
    requires !HasPost(s.posts, PostIdOf(parseId, rawPostId, ObjectId(s.nextId + 1)).value)
    ensures var out := AddComment(parseId, s, caller, rawPostId, text, now);
      Orphaned(out.store, out.store.comments[|s.comments|])
  {
  }

  /** A request without `post_id` is not refused: from a valid store the
      comment it adds is orphaned from the start, filed under an id that
      names no post and no comment. */
  lemma MissingPostIdOrphans(parseId: IdParser, s: Store, caller: Caller, text: Option<string>, now: nat)
    requires Valid(s)
    requires CallerId(parseId, caller).Some? && Trim(FieldText(text)) != []
    ensures var out := AddComment(parseId, s, caller, None, text, now);
      && out.response == Response(Created, Message("Comment added"))
      && Orphaned(out.store, out.store.comments[|s.comments|])
  {
  }

  /** Reading the comments of an id does not look for a post either: every
      comment filed under the id is listed, whether or not a post has it. */
  lemma CommentsListedWithoutPost(parseId: IdParser, s: Store, rawId: string, c: Comment)
    requires parseId(rawId).Some? && c in s.comments && c.postId == parseId(rawId).value
    ensures GetPostComments(parseId, s, rawId).body.CommentList?
    ensures c in GetPostComments(parseId, s, rawId).body.comments
  {
    var cs := GetPostComments(parseId, s, rawId).body.comments;
    assert multiset(cs)[c] == multiset(s.comments)[c];
    assert c in multiset(s.comments);
  }

  /** A new post counts towards its author's statistics and adds nothing to
      the liked total (it carries no like metric). */
  lemma CreatePostCountsForAuthor(parseId: IdParser, s: Store, caller: Caller, content: Option<string>, now: nat)
    requires CreatePost(parseId, s, caller, content, now).response.status == Created
    ensures var id := CallerId(parseId, caller).value;
      var after := CreatePost(parseId, s, caller, content, now).store;
      && PostStats(after.posts, id).totalPosts == PostStats(s.posts, id).totalPosts + 1
      && PostStats(after.posts, id).totalLikesReceived == PostStats(s.posts, id).totalLikesReceived
  {
    var out := CreatePost(parseId, s, caller, content, now);
    var p := out.response.body.post;
    var id := CallerId(parseId, caller).value;
    PostStatsAppend(s.posts, [p], id);
    assert [p][1..] == [];
  }

  /** Statistics sum the recorded like metric, not the like lists: liking a
      post leaves everybody's statistics unchanged. */
  lemma LikesLeaveStatsAlone(parseId: IdParser, s: Store, caller: Caller, rawId: string, id: ObjectId)
    ensures PostStats(LikePost(parseId, s, caller, rawId).store.posts, id) == PostStats(s.posts, id)
  {
    var out := LikePost(parseId, s, caller, rawId);
    if out.store != s {
      PostStatsReadOwnerAndMetric(out.store.posts, s.posts, id);
    }
  }

  /** Reading one post gives the same entry the feed shows for it. */
  lemma PostByIdMatchesFeed(parseId: IdParser, s: Store, rawId: string)
    requires GetPostById(parseId, s, rawId).status == Ok
    ensures GetPostById(parseId, s, rawId).body.entry in Feed(s)
  {
    var e := GetPostById(parseId, s, rawId).body.entry;
    var feed := Feed(s);
    assert e.post in multiset(Map(feed, EntryPost));
    var k :| 0 <= k < |feed| && Map(feed, EntryPost)[k] == e.post;
    assert feed[k] == Enrich(s, e.post) == e;
  }

  /** The comment count shown with a post is the length of its comment list. */
  lemma CommentsCountMatchesCommentList(parseId: IdParser, s: Store, rawId: string)
    requires GetPostById(parseId, s, rawId).status == Ok
    ensures GetPostById(parseId, s, rawId).body.entry.commentsCount
      == |GetPostComments(parseId, s, rawId).body.comments|
  {
    var e := GetPostById(parseId, s, rawId).body.entry;
    var list := GetPostComments(parseId, s, rawId).body.comments;
    assert multiset(e.comments) == multiset(list);
  }

  /** The cast and the states of a walk through the service: an admin
      Alice and a user Bob; Alice posts `text`; Bob likes the post, then
      comments `remark` on it. */
  const Alice: Caller := Some(Principal("a", Payload("a", "admin", "alice")))
  const Bob: Caller := Some(Principal("b", Payload("b", "user", "bob")))
  const Start := Store(
    [User(ObjectId(0), "alice", "a@x", "h1", "", "", 0, "admin"),
     User(ObjectId(1), "bob", "b@x", "h2", "", "", 0, "user")],
    [], [], 2)

  function Posted(text: string): Post {
    Post(ObjectId(2), ObjectId(0), text, 10, LikeList([]), None)
  }

  function AfterPost(text: string): Store {
    Start.(posts := [Posted(text)], nextId := 3)
  }

  function AfterLike(text: string): Store {
    Start.(posts := [Posted(text).(likes := LikeList([ObjectId(1)]))], nextId := 3)
  }

  function Remark(remark: string): Comment {
    Comment(ObjectId(3), ObjectId(2), ObjectId(1), "bob", remark, 11)
  }

  function AfterComment(text: string, remark: string): Store {
    AfterLike(text).(comments := [Remark(remark)], nextId := 4)
  }

  /** The ids the walk's raw strings parse to. */
  predicate WalkIds(parseId: IdParser) {
    && parseId("a") == Some(ObjectId(0))
    && parseId("b") == Some(ObjectId(1))
    && parseId("p") == Some(ObjectId(2))
  }

  /** A text with no white space at either end; `trim` leaves it alone. */
  predicate Word(w: string) {
    w != [] && !IsSpace(w[0]) && !IsSpace(w[|w| - 1])
  }

  /** A successful `createPost` appends the post it reports and moves the
      id counter on by one. */
  lemma CreatePostAppends(parseId: IdParser, s: Store, caller: Caller, content: Option<string>, now: nat, uid: ObjectId, text: string)
    requires CallerId(parseId, caller) == Some(uid)
    requires Trim(FieldText(content)) == text && text != []
    ensures var p := Post(ObjectId(s.nextId), uid, text, now, LikeList([]), None);
      CreatePost(parseId, s, caller, content, now)
        == Reply(s.(posts := s.posts + [p], nextId := s.nextId + 1), Response(Created, CreatedPost(p)))
  {
  }

  lemma WalkPost(parseId: IdParser, text: string)
    requires WalkIds(parseId) && Word(text)
    ensures CreatePost(parseId, Start, Alice, Some(text), 10).store == AfterPost(text)
  {
    TrimKeepsWord(text);
    CreatePostAppends(parseId, Start, Alice, Some(text), 10, ObjectId(0), text);
    assert Start.posts + [Posted(text)] == [Posted(text)];
  }

  lemma WalkLike(parseId: IdParser, text: string)
    requires WalkIds(parseId)
    ensures LikePost(parseId, AfterPost(text), Bob, "p") == Reply(AfterLike(text), Response(Ok, Toggled(true)))
  {
    assert FindPost(AfterPost(text).posts, ObjectId(2)) == Some(0);
    assert AddToSet(LikeList([]), ObjectId(1)) == LikeList([ObjectId(1)]);
  }

  /** A successful `addComment` with a `post_id` appends one comment under
      it and moves the id counter on by one. */
  lemma AddCommentAppendsGiven(parseId: IdParser, s: Store, caller: Caller, raw: string, text: Option<string>, now: nat,
                               pid: ObjectId, uid: ObjectId, clean: string)
    requires parseId(raw) == Some(pid) && CallerId(parseId, caller) == Some(uid)
    requires Trim(FieldText(text)) == clean && clean != []
    ensures var c := Comment(ObjectId(s.nextId), pid, uid, AuthorName(caller), clean, now);
      AddComment(parseId, s, caller, Some(raw), text, now)
        == Reply(s.(comments := s.comments + [c], nextId := s.nextId + 1), Response(Created, Message("Comment added")))
  {
  }

  /** A successful `addComment` without a `post_id` appends one comment under
      a generated id and moves the id counter on by two. */
  lemma AddCommentAppendsMissing(parseId: IdParser, s: Store, caller: Caller, text: Option<string>, now: nat,
                                 uid: ObjectId, clean: string)
    requires CallerId(parseId, caller) == Some(uid)
    requires Trim(FieldText(text)) == clean && clean != []
    ensures var c := Comment(ObjectId(s.nextId), ObjectId(s.nextId + 1), uid, AuthorName(caller), clean, now);
      AddComment(parseId, s, caller, None, text, now)
        == Reply(s.(comments := s.comments + [c], nextId := s.nextId + 2), Response(Created, Message("Comment added")))
  {
  }

  /** A successful `addComment` appends one comment and moves the id
      counter on. */
  lemma AddCommentAppends(parseId: IdParser, s: Store, caller: Caller, rawPostId: Option<string>, text: Option<string>, now: nat,
                          pid: ObjectId, uid: ObjectId, clean: string)
    requires PostIdOf(parseId, rawPostId, ObjectId(s.nextId + 1)) == Some(pid) && CallerId(parseId, caller) == Some(uid)
    requires Trim(FieldText(text)) == clean && clean != []
    ensures var c := Comment(ObjectId(s.nextId), pid, uid, AuthorName(caller), clean, now);
      var next := if rawPostId.None? then s.nextId + 2 else s.nextId + 1;
      AddComment(parseId, s, caller, rawPostId, text, now)
        == Reply(s.(comments := s.comments + [c], nextId := next), Response(Created, Message("Comment added")))
  {
    match rawPostId
    case None => AddCommentAppendsMissing(parseId, s, caller, text, now, uid, clean);
    case Some(raw) => AddCommentAppendsGiven(parseId, s, caller, raw, text, now, pid, uid, clean);
  }

  lemma WalkComment(parseId: IdParser, text: string, remark: string)
    requires WalkIds(parseId) && Word(remark)
    ensures AddComment(parseId, AfterLike(text), Bob, Some("p"), Some(remark), 11).store == AfterComment(text, remark)
  {
    TrimKeepsWord(remark);
    AddCommentAppends(parseId, AfterLike(text), Bob, Some("p"), Some(remark), 11, ObjectId(2), ObjectId(1), remark);
    assert AfterLike(text).comments + [Remark(remark)] == [Remark(remark)];
  }

  lemma WalkCounters(parseId: IdParser, text: string, remark: string)
    requires WalkIds(parseId)
    ensures GetPostById(parseId, AfterComment(text, remark), "p").body.SinglePost?
    ensures GetPostById(parseId, AfterComment(text, remark), "p").body.entry.likesCount == 1
    ensures GetPostById(parseId, AfterComment(text, remark), "p").body.entry.commentsCount == 1
  {
    assert FindPost(AfterComment(text, remark).posts, ObjectId(2)) == Some(0);
    assert CommentsOn(AfterComment(text, remark).comments, ObjectId(2)) == [Remark(remark)];
  }

  lemma WalkDelete(parseId: IdParser, text: string, remark: string)
    requires WalkIds(parseId)
    ensures DeletePost(parseId, AfterComment(text, remark), Bob, "p")
      == Reply(AfterComment(text, remark), Fail(Forbidden, "Forbidden"))
    ensures DeletePost(parseId, AfterComment(text, remark), Alice, "p").response.status == Ok
    ensures DeletePost(parseId, AfterComment(text, remark), Alice, "p").store == Start.(nextId := 4)
  {
    assert FindPost(AfterComment(text, remark).posts, ObjectId(2)) == Some(0);
    assert Filter(AfterComment(text, remark).comments, (c: Comment) => c.postId != ObjectId(2)) == [];
  }

  lemma WalkAfterDelete(parseId: IdParser)
    requires WalkIds(parseId)
    ensures GetPostById(parseId, Start.(nextId := 4), "p") == Fail(NotFound, "Post not found")
    ensures GetPostComments(parseId, Start.(nextId := 4), "p").body == CommentList([])
  {
    assert !HasPost(Start.posts, ObjectId(2));
    assert CommentsOn(Start.comments, ObjectId(2)) == [];
  }

  /** The walk end to end, for any post and comment text without white
      space at the ends: the post shows one like and one comment; Bob may
      not delete Alice's post; Alice deletes it, after which reading the post
      gives 404 and its comment list is empty. */
  lemma AdminDeletesLikedAndCommentedPost(parseId: IdParser, text: string, remark: string)
    requires WalkIds(parseId) && Word(text) && Word(remark)
    ensures
      var s1 := CreatePost(parseId, Start, Alice, Some(text), 10).store;
      var s2 := LikePost(parseId, s1, Bob, "p").store;
      var s3 := AddComment(parseId, s2, Bob, Some("p"), Some(remark), 11).store;
      var read := GetPostById(parseId, s3, "p").body;
      var s4 := DeletePost(parseId, s3, Alice, "p").store;
      && read.SinglePost?
      && read.entry.likesCount == 1
      && read.entry.commentsCount == 1
      && DeletePost(parseId, s3, Bob, "p").response == Fail(Forbidden, "Forbidden")
      && DeletePost(parseId, s3, Alice, "p").response.status == Ok
      && GetPostById(parseId, s4, "p") == Fail(NotFound, "Post not found")
      && GetPostComments(parseId, s4, "p").body == CommentList([])
  {
    var s1 := CreatePost(parseId, Start, Alice, Some(text), 10).store;
    WalkPost(parseId, text);
    assert s1 == AfterPost(text);
    var s2 := LikePost(parseId, s1, Bob, "p").store;
    WalkLike(parseId, text);
    assert s2 == AfterLike(text);
    var s3 := AddComment(parseId, s2, Bob, Some("p"), Some(remark), 11).store;
    WalkComment(parseId, text, remark);
    assert s3 == AfterComment(text, remark);
    WalkCounters(parseId, text, remark);
    WalkDelete(parseId, text, remark);
    assert DeletePost(parseId, s3, Alice, "p").store == Start.(nextId := 4);
    WalkAfterDelete(parseId);
  }
}
