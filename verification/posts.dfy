/** The post controller: the feed, the top-five ranking, reading one post
    and its comments, and creating, editing, deleting and liking posts.
    Editing and deleting are for the post's author only; there is no
    exception for admins. */
module Posts {
  import opened Wrappers
  import opened Text
  import opened Collections
  import opened Sorting
  import opened Documents
  import opened Enrichment
  import opened Http
  import opened Auth

  /** The post an entry of the feed shows. */
  function EntryPost(e: EnrichedPost): Post {
    e.post
  }

  /** The post an entry of the ranking shows. */
  function RankedPostOf(r: RankedPost): Post {
    r.post
  }

  /** Each post with its joins and counters, in the given order. */
  function EnrichAll(s: Store, ps: seq<Post>): (r: seq<EnrichedPost>)
    ensures Map(r, EntryPost) == ps
    ensures forall i :: 0 <= i < |r| ==> r[i] == Enrich(s, ps[i])
  {
    var r := seq(|ps|, i requires 0 <= i < |ps| => Enrich(s, ps[i]));
    assert Map(r, EntryPost) == ps;
    r
  }

  /** The `getAllPosts` pipeline: every post exactly once, newest first,
      each with its author, its comments and both counters. */
  function Feed(s: Store): (r: seq<EnrichedPost>)
    ensures |r| == |s.posts|
    ensures multiset(Map(r, EntryPost)) == multiset(s.posts)
    ensures forall i, j :: 0 <= i < j < |r| ==> r[i].post.createdAt >= r[j].post.createdAt
    ensures forall i :: 0 <= i < |r| ==> r[i] == Enrich(s, r[i].post)
  {
    var sorted := Sort(ByNewest, s.posts);
    NewestFirst(sorted);
    var r := EnrichAll(s, sorted);
    EnrichAllKeepsOrder(s, sorted);
    r
  }

  /** Sorted by `ByNewest` means `created_at` never increases. */
  lemma NewestFirst(ps: seq<Post>)
    requires SortedBy(ByNewest, ps)
    ensures forall i, j :: 0 <= i < j < |ps| ==> ps[i].createdAt >= ps[j].createdAt
  {
    forall i, j | 0 <= i < j < |ps| ensures ps[i].createdAt >= ps[j].createdAt {
      assert AtLeast(ByNewest(ps[i]), ByNewest(ps[j]));
    }
  }

  /** The enriched entries keep the order and the joins of the posts. */
  lemma EnrichAllKeepsOrder(s: Store, ps: seq<Post>)
    ensures var r := EnrichAll(s, ps);
      && |r| == |ps|
      && (forall i :: 0 <= i < |r| ==> r[i].post == ps[i])
      && (forall i :: 0 <= i < |r| ==> r[i] == Enrich(s, r[i].post))
  {
    var r := EnrichAll(s, ps);
    assert |Map(r, EntryPost)| == |r|;
    forall i | 0 <= i < |r| ensures r[i].post == ps[i] && r[i] == Enrich(s, r[i].post) {
      assert Map(r, EntryPost)[i] == r[i].post;
    }
  }

  /** `getAllPosts`: always 200, with every post exactly once, newest
      first, each with its joins and counters. */
  function GetAllPosts(s: Store): (resp: Response)
    ensures resp.status == Ok && resp.body.FeedList?
    ensures resp.body.FeedList? ==>
      && var es := resp.body.entries;
      && multiset(Map(es, EntryPost)) == multiset(s.posts)
      && (forall i, j :: 0 <= i < j < |es| ==> es[i].post.createdAt >= es[j].post.createdAt)
      && (forall i :: 0 <= i < |es| ==> es[i] == Enrich(s, es[i].post))
  {
    Response(Ok, FeedList(Feed(s)))
  }

  /** Each post with its like count and its author, in the given order. */
  function Rank(users: seq<User>, ps: seq<Post>): (r: seq<RankedPost>)
    ensures Map(r, RankedPostOf) == ps
    ensures forall i :: 0 <= i < |r| ==>
      r[i].likesCount == LikesCount(ps[i]) && r[i].author == AuthorOf(users, ps[i].userId)
  {
    var r := seq(|ps|, i requires 0 <= i < |ps| =>
      RankedPost(ps[i], LikesCount(ps[i]), AuthorOf(users, ps[i].userId)));
    assert Map(r, RankedPostOf) == ps;
    r
  }

  /** The `getTopPosts` pipeline: the five most liked posts (all of them
      when there are fewer), most liked first and newest first among equally
      liked ones, each with its author. */
  function Top(s: Store): (r: seq<RankedPost>)
    ensures |r| == if |s.posts| < TopLimit then |s.posts| else TopLimit
    ensures multiset(Map(r, RankedPostOf)) <= multiset(s.posts)
    ensures forall i, j :: 0 <= i < j < |r| ==>
      || r[i].likesCount > r[j].likesCount
      || (r[i].likesCount == r[j].likesCount && r[i].post.createdAt >= r[j].post.createdAt)
    ensures forall i :: 0 <= i < |r| ==>
      r[i].likesCount == LikesCount(r[i].post) && r[i].author == AuthorOf(s.users, r[i].post.userId)
  {
    var sorted := Sort(ByLikes, s.posts);
    var top := Take(sorted, TopLimit);
    TakeKeepsOrder(ByLikes, sorted, TopLimit);
    TakeIsSubmultiset(sorted, TopLimit);
    var r := Rank(s.users, top);
    assert |r| == |top|;
    assert forall i :: 0 <= i < |r| ==> r[i].post == top[i];
    r
  }

  /** `getTopPosts`: always 200, with at most five stored posts, most liked
      first and newest first among equally liked ones, each with its like
      count and author. */
  function GetTopPosts(s: Store): (resp: Response)
    ensures resp.status == Ok && resp.body.TopList?
    ensures resp.body.TopList? ==>
      && var rs := resp.body.ranked;
      && |rs| == (if |s.posts| < TopLimit then |s.posts| else TopLimit)
      && multiset(Map(rs, RankedPostOf)) <= multiset(s.posts)
      && (forall i, j :: 0 <= i < j < |rs| ==>
            || rs[i].likesCount > rs[j].likesCount
            || (rs[i].likesCount == rs[j].likesCount && rs[i].post.createdAt >= rs[j].post.createdAt))
      && (forall i :: 0 <= i < |rs| ==>
            rs[i].likesCount == LikesCount(rs[i].post) && rs[i].author == AuthorOf(s.users, rs[i].post.userId))
  {
    Response(Ok, TopList(Top(s)))
  }

  /** The number of posts the ranking keeps (`$limit: 5`). */
  const TopLimit := 5

  /** No post left out of the ranking ranks strictly above one kept in it. */
  lemma TopOmitsNothingBetter(s: Store, p: Post, i: nat)
    requires p in multiset(s.posts) - multiset(Map(Top(s), RankedPostOf))
    requires i < |Top(s)|
    ensures var kept := Top(s)[i];
      || LikesCount(p) < kept.likesCount
      || (LikesCount(p) == kept.likesCount && p.createdAt <= kept.post.createdAt)
  {
    var sorted := Sort(ByLikes, s.posts);
    var top := Take(sorted, TopLimit);
    assert Map(Top(s), RankedPostOf) == top;
    assert top[i] in top;
    TakeKeepsBest(ByLikes, sorted, TopLimit, top[i], p);
  }

  /** `getPostById`: 400 when the id does not parse, 404 when no post has
      it, else that post with its joins and counters. */
  function GetPostById(parseId: IdParser, s: Store, rawId: string): (resp: Response)
    ensures parseId(rawId).None? ==> resp == Fail(BadRequest, "Invalid post id")
    ensures parseId(rawId).Some? && !HasPost(s.posts, parseId(rawId).value) ==>
      resp == Fail(NotFound, "Post not found")
    ensures resp.status == Ok <==> parseId(rawId).Some? && HasPost(s.posts, parseId(rawId).value)
    ensures resp.status == Ok ==>
      && resp.body.SinglePost?
      && resp.body.entry.post in s.posts
      && resp.body.entry.post.id == parseId(rawId).value
      && resp.body.entry == Enrich(s, resp.body.entry.post)
  {
    match parseId(rawId)
    case None => Fail(BadRequest, "Invalid post id")
    case Some(id) =>
      match FindPost(s.posts, id)
      case None => Fail(NotFound, "Post not found")
      case Some(i) => Response(Ok, SinglePost(Enrich(s, s.posts[i])))
  }

  /** Comments ascending by `created_at`: a descending sort on the negated
      timestamp. */
  function OldestFirst(c: Comment): Key {
    Key(-(c.createdAt as int), 0)
  }

  /** `find({post_id: id}).sort({created_at: 1})`: exactly the comments on
      the post, each as often as it is stored, oldest first. */
  function CommentsOldestFirst(comments: seq<Comment>, id: ObjectId): (r: seq<Comment>)
    ensures forall c :: multiset(r)[c] == if c.postId == id then multiset(comments)[c] else 0
    ensures forall i, j :: 0 <= i < j < |r| ==> r[i].createdAt <= r[j].createdAt
  {
    var on := CommentsOn(comments, id);
    var r := Sort(OldestFirst, on);
    assert multiset(r) == multiset(on);
    assert forall i, j :: 0 <= i < j < |r| ==> r[i].createdAt <= r[j].createdAt by {
      forall i, j | 0 <= i < j < |r| ensures r[i].createdAt <= r[j].createdAt {
        assert AtLeast(OldestFirst(r[i]), OldestFirst(r[j]));
      }
    }
    r
  }

  /** `getPostComments`: 400 when the id does not parse; otherwise 200 with
      the comments filed under that id, oldest first. Whether a post has
      the id is not checked: an id with no post gets whatever comments are
      stored under it. */
  function GetPostComments(parseId: IdParser, s: Store, rawId: string): (resp: Response)
    ensures parseId(rawId).None? ==> resp == Fail(BadRequest, "Invalid post id")
    ensures parseId(rawId).Some? ==> resp.status == Ok && resp.body.CommentList?
    ensures parseId(rawId).Some? && resp.body.CommentList? ==>
      && var id := parseId(rawId).value;
      && var cs := resp.body.comments;
      && (forall c :: multiset(cs)[c] == if c.postId == id then multiset(s.comments)[c] else 0)
      && (forall i, j :: 0 <= i < j < |cs| ==> cs[i].createdAt <= cs[j].createdAt)
  {
    match parseId(rawId)
    case None => Fail(BadRequest, "Invalid post id")
    case Some(id) => Response(Ok, CommentList(CommentsOldestFirst(s.comments, id)))
  }

  /** `createPost`: 401 without a caller id, 400 when the content is all
      white space, else one new post owned by the caller, with the trimmed
      content and no likes, and nothing else changes. */
  function CreatePost(parseId: IdParser, s: Store, caller: Caller, content: Option<string>, now: nat): (out: Reply)
    ensures CallerId(parseId, caller).None? ==> out == Reply(s, Fail(Unauthorized, "Unauthorized"))
    ensures CallerId(parseId, caller).Some? && Trim(FieldText(content)) == [] ==>
      out == Reply(s, Fail(BadRequest, "Content is required"))
    ensures out.response.status == Created <==>
      CallerId(parseId, caller).Some? && Trim(FieldText(content)) != []
    ensures out.response.status != Created ==> out.store == s
    ensures out.response.status == Created ==>
      && out.response.body.CreatedPost?
      && var p := out.response.body.post;
      && out.store.users == s.users
      && out.store.comments == s.comments
      && out.store.posts == s.posts + [p]
      && p.id == ObjectId(s.nextId) && out.store.nextId == s.nextId + 1
      && p.userId == CallerId(parseId, caller).value
      && p.content == Trim(FieldText(content)) && p.content != []
      && p.likes == LikeList([]) && p.likesMetric == None && p.createdAt == now
      && (Valid(s) ==> !HasPost(s.posts, p.id))
    ensures Valid(s) ==> Valid(out.store)
  {
    match CallerId(parseId, caller)
    case None => Reply(s, Fail(Unauthorized, "Unauthorized"))
    case Some(uid) =>
      var text := Trim(FieldText(content));
      if text == [] then Reply(s, Fail(BadRequest, "Content is required"))
      else
        var p := Post(ObjectId(s.nextId), uid, text, now, LikeList([]), None);
        var s' := s.(posts := s.posts + [p], nextId := s.nextId + 1);
        assert Valid(s) ==> Valid(s') by {
          if Valid(s) { InsertPostKeepsValid(s, p); }
        }
        Reply(s', Response(Created, CreatedPost(p)))
  }

  /** `updatePost`. The checks come in this order: 400 malformed id, 401 no
      caller id, 400 content all white space, 404 no such post, 403 caller
      is not the author. On success only that post's content changes. */
  function UpdatePost(parseId: IdParser, s: Store, caller: Caller, rawId: string, content: Option<string>): (out: Reply)
    ensures out.response.status != Ok ==> out.store == s
    ensures parseId(rawId).None? ==> out.response == Fail(BadRequest, "Invalid post id")
    ensures parseId(rawId).Some? && CallerId(parseId, caller).None? ==>
      out.response == Fail(Unauthorized, "Unauthorized")
    ensures parseId(rawId).Some? && CallerId(parseId, caller).Some? && Trim(FieldText(content)) == [] ==>
      out.response == Fail(BadRequest, "Content is required")
    ensures (parseId(rawId).Some? && CallerId(parseId, caller).Some? && Trim(FieldText(content)) != []
      && !HasPost(s.posts, parseId(rawId).value)) ==>
      out.response == Fail(NotFound, "Post not found")
    ensures (parseId(rawId).Some? && CallerId(parseId, caller).Some? && Trim(FieldText(content)) != []
      && FindPost(s.posts, parseId(rawId).value).Some?) ==>
      var i := FindPost(s.posts, parseId(rawId).value).value;
      if s.posts[i].userId != CallerId(parseId, caller).value
      then out.response == Fail(Forbidden, "Forbidden")
      else
        && out.response == Response(Ok, Message("Post updated"))
        && OnlyPostChanged(s, out.store, i, s.posts[i].(content := Trim(FieldText(content))))
    ensures Valid(s) ==> Valid(out.store)
  {
    match parseId(rawId)
    case None => Reply(s, Fail(BadRequest, "Invalid post id"))
    case Some(pid) =>
      match CallerId(parseId, caller)
      case None => Reply(s, Fail(Unauthorized, "Unauthorized"))
      case Some(uid) =>
        var text := Trim(FieldText(content));
        if text == [] then Reply(s, Fail(BadRequest, "Content is required"))
        else
          match FindPost(s.posts, pid)
          case None => Reply(s, Fail(NotFound, "Post not found"))
          case Some(i) =>
            if s.posts[i].userId != uid then Reply(s, Fail(Forbidden, "Forbidden"))
            else
              var p := s.posts[i].(content := text);
              assert Valid(s) ==> KeysDistinct(LikeIds(p.likes), IdOfLiker);
              Reply(WithPost(s, i, p), Response(Ok, Message("Post updated")))
  }

  /** The first half of the cascade: `deleteMany({post_id})` on comments. */
  function RemoveCommentsOn(s: Store, pid: ObjectId): (s': Store)
    ensures s'.users == s.users && s'.posts == s.posts && s'.nextId == s.nextId
    ensures forall c :: multiset(s'.comments)[c] == if c.postId == pid then 0 else multiset(s.comments)[c]
    ensures forall c :: c in s'.comments <==> c in s.comments && c.postId != pid
  {
    s.(comments := Filter(s.comments, (c: Comment) => c.postId != pid))
  }

  /** The second half of the cascade: `deleteOne({_id})` on posts. */
  function RemovePostAt(s: Store, i: nat): (s': Store)
    requires i < |s.posts|
    ensures s'.users == s.users && s'.comments == s.comments && s'.nextId == s.nextId
    ensures multiset(s'.posts) == multiset(s.posts) - multiset{s.posts[i]}
  {
    s.(posts := RemoveAt(s.posts, i))
  }

  /** The cascade of a permitted `deletePost` on the post at index `i`:
      the comments on it go first, then the post. */
  function Cascade(s: Store, i: nat): (s': Store)
    requires i < |s.posts|
    ensures var pid := s.posts[i].id;
      && s'.users == s.users && s'.nextId == s.nextId
      && (forall c :: multiset(s'.comments)[c] == if c.postId == pid then 0 else multiset(s.comments)[c])
      && (forall c :: c in s'.comments ==> c.postId != pid)
      && (forall p :: p in s.posts && p.id != pid ==> p in s'.posts)
      && (forall p :: p in s'.posts ==> p in s.posts)
      && |s'.posts| == |s.posts| - 1
    ensures s'.posts == RemoveAt(s.posts, i)
    ensures Valid(s) ==> Valid(s') && !HasPost(s'.posts, s.posts[i].id)
  {
    var pid := s.posts[i].id;
    var s1 := RemoveCommentsOn(s, pid);
    var s2 := RemovePostAt(s1, i);
    assert s2.posts == RemoveAt(s.posts, i);
    RemoveAtMembers(s.posts, i);
    assert Valid(s) ==> Valid(s2) && !HasPost(s2.posts, pid) by {
      if Valid(s) { CascadeKeepsValid(s, i); }
    }
    s2
  }

  lemma CascadeKeepsValid(s: Store, i: nat)
    requires Valid(s) && i < |s.posts|
    ensures var s2 := RemovePostAt(RemoveCommentsOn(s, s.posts[i].id), i);
      Valid(s2) && !HasPost(s2.posts, s.posts[i].id)
  {
    var pid := s.posts[i].id;
    var s1 := RemoveCommentsOn(s, pid);
    var s2 := RemovePostAt(s1, i);
    FilterCommentsKeepsValid(s, (c: Comment) => c.postId != pid);
    RemovePostKeepsValid(s1, i);
    assert s2.posts == RemoveAt(s.posts, i);
    forall k | 0 <= k < |s2.posts| ensures s2.posts[k].id != pid {
      if k < i { assert s2.posts[k] == s.posts[k]; }
      else { assert s2.posts[k] == s.posts[k + 1]; }
    }
  }

  /** `deletePost`. The checks come in this order: 400 malformed id, 401 no
      caller id, 404 no such post, 403 caller is not the author. On success
      the comments on the post are deleted and then the post itself; no
      user, other post or other comment is touched. */
  function DeletePost(parseId: IdParser, s: Store, caller: Caller, rawId: string): (out: Reply)
    ensures out.response.status != Ok ==> out.store == s
    ensures parseId(rawId).None? ==> out.response == Fail(BadRequest, "Invalid post id")
    ensures parseId(rawId).Some? && CallerId(parseId, caller).None? ==>
      out.response == Fail(Unauthorized, "Unauthorized")
    ensures (parseId(rawId).Some? && CallerId(parseId, caller).Some?
      && !HasPost(s.posts, parseId(rawId).value)) ==>
      out.response == Fail(NotFound, "Post not found")
    ensures (parseId(rawId).Some? && CallerId(parseId, caller).Some?
      && FindPost(s.posts, parseId(rawId).value).Some?) ==>
      var i := FindPost(s.posts, parseId(rawId).value).value;
      if s.posts[i].userId != CallerId(parseId, caller).value
      then out.response == Fail(Forbidden, "Forbidden")
      else out.response == Response(Ok, Message("Post and its comments deleted"))
    ensures out.response.status == Ok ==>
      var pid := parseId(rawId).value;
      && out.store.users == s.users && out.store.nextId == s.nextId
      && (forall c :: multiset(out.store.comments)[c] ==
            if c.postId == pid then 0 else multiset(s.comments)[c])
      && (forall c :: c in out.store.comments ==> c.postId != pid)
      && (forall p :: p in s.posts && p.id != pid ==> p in out.store.posts)
      && (forall p :: p in out.store.posts ==> p in s.posts)
      && |out.store.posts| == |s.posts| - 1
      && out.store.posts == RemoveAt(s.posts, FindPost(s.posts, pid).value)
      && (Valid(s) ==> !HasPost(out.store.posts, pid))
    ensures Valid(s) ==> Valid(out.store)
  {
    match parseId(rawId)
    case None => Reply(s, Fail(BadRequest, "Invalid post id"))
    case Some(pid) =>
      match CallerId(parseId, caller)
      case None => Reply(s, Fail(Unauthorized, "Unauthorized"))
      case Some(uid) =>
        match FindPost(s.posts, pid)
        case None => Reply(s, Fail(NotFound, "Post not found"))
        case Some(i) =>
          if s.posts[i].userId != uid then Reply(s, Fail(Forbidden, "Forbidden"))
          else Reply(Cascade(s, i), Response(Ok, Message("Post and its comments deleted")))
  }

  /** The like list after `$pull: { likes: userId }`: every occurrence removed. */
  function Pull(likes: Likes, uid: ObjectId): (r: Likes)
    requires likes.LikeList?
    ensures r.LikeList? && uid !in r.ids
    ensures Likers(r) == Likers(likes) - {uid}
    ensures forall x :: x != uid ==> multiset(r.ids)[x] == multiset(likes.ids)[x]
  {
    LikeList(Filter(likes.ids, (x: ObjectId) => x != uid))
  }

  /** The like list after `$addToSet: { likes: userId }` when the user is not
      in it yet; an absent field becomes a one-element array. */
  function AddToSet(likes: Likes, uid: ObjectId): (r: Likes)
    requires !likes.NotAList? && uid !in LikeIds(likes)
    ensures r.LikeList? && r.ids == LikeIds(likes) + [uid]
    ensures Likers(r) == Likers(likes) + {uid}
  {
    LikeList(LikeIds(likes) + [uid])
  }

  /** `likePost`: 400 malformed id, 401 no caller id, 404 no such post.
      Otherwise a toggle: a caller already in `likes` is removed and gets
      `liked: false`; any other caller is added once and gets `liked: true`.
      Adding to a `likes` that is neither absent nor an array is refused by
      the database (500). Only that post's `likes` changes. */
  function LikePost(parseId: IdParser, s: Store, caller: Caller, rawId: string): (out: Reply)
    ensures out.response.status != Ok ==> out.store == s
    ensures parseId(rawId).None? ==> out.response == Fail(BadRequest, "Invalid post id")
    ensures parseId(rawId).Some? && CallerId(parseId, caller).None? ==>
      out.response == Fail(Unauthorized, "Unauthorized")
    ensures (parseId(rawId).Some? && CallerId(parseId, caller).Some?
      && !HasPost(s.posts, parseId(rawId).value)) ==>
      out.response == Fail(NotFound, "Post not found")
    ensures (parseId(rawId).Some? && CallerId(parseId, caller).Some?
      && FindPost(s.posts, parseId(rawId).value).Some?) ==>
      var i := FindPost(s.posts, parseId(rawId).value).value;
      var uid := CallerId(parseId, caller).value;
      var before := s.posts[i].likes;
      if uid in LikeIds(before) then
        && out.response == Response(Ok, Toggled(false))
        && OnlyPostChanged(s, out.store, i, s.posts[i].(likes := Pull(before, uid)))
      else if before.NotAList? then
        out.response == Response(ServerError, LibraryError)
      else
        && out.response == Response(Ok, Toggled(true))
        && OnlyPostChanged(s, out.store, i, s.posts[i].(likes := AddToSet(before, uid)))
    ensures Valid(s) ==> Valid(out.store)
  {
    match parseId(rawId)
    case None => Reply(s, Fail(BadRequest, "Invalid post id"))
    case Some(pid) =>
      match CallerId(parseId, caller)
      case None => Reply(s, Fail(Unauthorized, "Unauthorized"))
      case Some(uid) =>
        match FindPost(s.posts, pid)
        case None => Reply(s, Fail(NotFound, "Post not found"))
        case Some(i) =>
          var before := s.posts[i].likes;
          if uid in LikeIds(before) then
            var p := s.posts[i].(likes := Pull(before, uid));
            assert Valid(s) ==> KeysDistinct(LikeIds(p.likes), IdOfLiker) by {
              if Valid(s) { PullKeepsDistinct(before, uid); }
            }
            Reply(WithPost(s, i, p), Response(Ok, Toggled(false)))
          else if before.NotAList? then
            Reply(s, Response(ServerError, LibraryError))
          else
            var p := s.posts[i].(likes := AddToSet(before, uid));
            assert Valid(s) ==> KeysDistinct(LikeIds(p.likes), IdOfLiker) by {
              if Valid(s) { AddToSetKeepsDistinct(before, uid); }
            }
            Reply(WithPost(s, i, p), Response(Ok, Toggled(true)))
  }

  lemma PullKeepsDistinct(likes: Likes, uid: ObjectId)
    requires likes.LikeList? && KeysDistinct(likes.ids, IdOfLiker)
    ensures KeysDistinct(LikeIds(Pull(likes, uid)), IdOfLiker)
  {
    FilterKeepsDistinct(likes.ids, IdOfLiker, (x: ObjectId) => x != uid);
  }

  lemma AddToSetKeepsDistinct(likes: Likes, uid: ObjectId)
    requires !likes.NotAList? && uid !in LikeIds(likes) && KeysDistinct(LikeIds(likes), IdOfLiker)
    ensures KeysDistinct(LikeIds(AddToSet(likes, uid)), IdOfLiker)
  {
    AppendKeepsDistinct(LikeIds(likes), IdOfLiker, uid);
  }
}
