/** The three collections of the `social_network_final` database and the
    documents they hold. */
module Documents {
  import opened Wrappers
  import opened Collections

  /** A MongoDB ObjectId. Only its identity matters here, so it is a number;
      how the driver derives one from text is the `IdParser` a handler is
      given. */
  datatype ObjectId = ObjectId(value: nat)

  /** `safeObjectId`: `new ObjectId(raw)`, or null when the constructor throws. */
  type IdParser = string -> Option<ObjectId>

  /** A document of `users`. `role` is "user" or "admin". */
  datatype User = User(
    id: ObjectId,
    username: string,
    email: string,
    passwordHash: string,
    bio: string,
    avatarUrl: string,
    createdAt: nat,
    role: string)

  /** A user with `password_hash` projected away. */
  datatype PublicUser = PublicUser(
    id: ObjectId,
    username: string,
    email: string,
    bio: string,
    avatarUrl: string,
    createdAt: nat,
    role: string)

  /** The `likes` field of a post: absent, an array of user ids, or a value
      of some other type. */
  datatype Likes = Missing | LikeList(ids: seq<ObjectId>) | NotAList

  /** A document of `posts`. `likesMetric` is `metrics.likes_count` when it is
      a number (seeded posts carry one; posts created through the API do not). */
  datatype Post = Post(
    id: ObjectId,
    userId: ObjectId,
    content: string,
    createdAt: nat,
    likes: Likes,
    likesMetric: Option<int>)

  /** A document of `comments`; `authorName` is copied from the token when the
      comment is written. */
  datatype Comment = Comment(
    id: ObjectId,
    postId: ObjectId,
    userId: ObjectId,
    authorName: string,
    text: string,
    createdAt: nat)

  /** The database, each collection in natural (insertion) order. `nextId` is
      the id the next inserted document receives. */
  datatype Store = Store(users: seq<User>, posts: seq<Post>, comments: seq<Comment>, nextId: nat)

  /** The user ids in a post's `likes`; anything but an array counts as none. */
  function LikeIds(likes: Likes): seq<ObjectId> {
    if likes.LikeList? then likes.ids else []
  }

  /** Membership of the like list, the part of it that carries meaning. */
  function Likers(likes: Likes): set<ObjectId> {
    set x | x in LikeIds(likes)
  }

  function IdOfUser(u: User): ObjectId { u.id }
  function EmailOfUser(u: User): string { u.email }
  function IdOfPost(p: Post): ObjectId { p.id }
  /** A like-list entry is its own key: a repeat-free like list is one
      whose entries are `KeysDistinct` under this key. */
  function IdOfLiker(x: ObjectId): ObjectId { x }
  function IdOfComment(c: Comment): ObjectId { c.id }

  /** What the database guarantees of every state the handlers see: `_id`
      is unique in each collection (and older than the next one issued),
      `email` is unique among users, and no like list holds an id twice
      (it only ever grows by `$addToSet`). */
  ghost predicate Valid(s: Store) {
    && KeysDistinct(s.users, IdOfUser)
    && KeysDistinct(s.users, EmailOfUser)
    && KeysDistinct(s.posts, IdOfPost)
    && KeysDistinct(s.comments, IdOfComment)
    && (forall i :: 0 <= i < |s.users| ==> s.users[i].id.value < s.nextId)
    && (forall i :: 0 <= i < |s.posts| ==> s.posts[i].id.value < s.nextId)
    && (forall i :: 0 <= i < |s.comments| ==> s.comments[i].id.value < s.nextId)
    && (forall i :: 0 <= i < |s.posts| ==> KeysDistinct(LikeIds(s.posts[i].likes), IdOfLiker))
  }

  /** `findOne({_id: id})` on users. */
  function FindUser(users: seq<User>, id: ObjectId): Option<nat> {
    FirstIndex(users, (u: User) => u.id == id)
  }

  /** `findOne({email})` on users. */
  function FindUserByEmail(users: seq<User>, email: string): Option<nat> {
    FirstIndex(users, (u: User) => u.email == email)
  }

  /** `findOne({_id: id})` on posts. */
  function FindPost(posts: seq<Post>, id: ObjectId): Option<nat> {
    FirstIndex(posts, (p: Post) => p.id == id)
  }

  /** `findOne({_id: id})` on comments. */
  function FindComment(comments: seq<Comment>, id: ObjectId): Option<nat> {
    FirstIndex(comments, (c: Comment) => c.id == id)
  }

  /** Some post has id `id`. */
  predicate HasPost(posts: seq<Post>, id: ObjectId) {
    exists i :: 0 <= i < |posts| && posts[i].id == id
  }

  /** `find({post_id: id})` on comments, in natural order. */
  function CommentsOn(comments: seq<Comment>, id: ObjectId): (r: seq<Comment>)
    ensures forall c :: multiset(r)[c] == if c.postId == id then multiset(comments)[c] else 0
  {
    Filter(comments, (c: Comment) => c.postId == id)
  }

  /** The user document as returned with `projection: {password_hash: 0}`. */
  function Public(u: User): PublicUser {
    PublicUser(u.id, u.username, u.email, u.bio, u.avatarUrl, u.createdAt, u.role)
  }

  /** The projection hides the hash and nothing else: two users with the
      same public view differ at most in their hash, and the hash never
      shows through it. */
  lemma PublicHidesOnlyHash(u: User, v: User)
    ensures Public(u) == Public(v) <==> u.(passwordHash := v.passwordHash) == v
  {
    if Public(u) == Public(v) {
      assert u.id == v.id && u.username == v.username && u.email == v.email;
      assert u.bio == v.bio && u.avatarUrl == v.avatarUrl;
      assert u.createdAt == v.createdAt && u.role == v.role;
    }
  }

  /** The store with one post document replaced and nothing else touched. */
  ghost predicate OnlyPostChanged(s: Store, s': Store, i: nat, p: Post) {
    && i < |s.posts|
    && s'.users == s.users && s'.comments == s.comments && s'.nextId == s.nextId
    && |s'.posts| == |s.posts|
    && s'.posts[i] == p
    && (forall j :: 0 <= j < |s.posts| && j != i ==> s'.posts[j] == s.posts[j])
  }

  /** The store with one comment document replaced and nothing else touched. */
  ghost predicate OnlyCommentChanged(s: Store, s': Store, i: nat, c: Comment) {
    && i < |s.comments|
    && s'.users == s.users && s'.posts == s.posts && s'.nextId == s.nextId
    && |s'.comments| == |s.comments|
    && s'.comments[i] == c
    && (forall j :: 0 <= j < |s.comments| && j != i ==> s'.comments[j] == s.comments[j])
  }

  /** The store after `updateOne` rewrote the post at index `i`. */
  function WithPost(s: Store, i: nat, p: Post): (s': Store)
    requires i < |s.posts|
    ensures OnlyPostChanged(s, s', i, p)
    ensures (Valid(s) && p.id == s.posts[i].id && KeysDistinct(LikeIds(p.likes), IdOfLiker)) ==> Valid(s')
  {
    var s' := s.(posts := s.posts[i := p]);
    assert (Valid(s) && p.id == s.posts[i].id && KeysDistinct(LikeIds(p.likes), IdOfLiker)) ==> Valid(s') by {
      if Valid(s) && p.id == s.posts[i].id && KeysDistinct(LikeIds(p.likes), IdOfLiker) {
        ReplacePostKeepsValid(s, i, p);
      }
    }
    s'
  }

  /** The store after `updateOne` rewrote the comment at index `i`. */
  function WithComment(s: Store, i: nat, c: Comment): (s': Store)
    requires i < |s.comments|
    ensures OnlyCommentChanged(s, s', i, c)
    ensures (Valid(s) && c.id == s.comments[i].id) ==> Valid(s')
  {
    var s' := s.(comments := s.comments[i := c]);
    assert (Valid(s) && c.id == s.comments[i].id) ==> Valid(s') by {
      if Valid(s) && c.id == s.comments[i].id { ReplaceCommentKeepsValid(s, i, c); }
    }
    s'
  }

  /** Inserting a user with the next id and an email not yet taken keeps
      the store valid. */
  lemma InsertUserKeepsValid(s: Store, u: User)
    requires Valid(s) && u.id == ObjectId(s.nextId)
    requires forall k :: 0 <= k < |s.users| ==> s.users[k].email != u.email
    ensures Valid(s.(users := s.users + [u], nextId := s.nextId + 1))
  {
    AppendKeepsDistinct(s.users, IdOfUser, u);
    AppendKeepsDistinct(s.users, EmailOfUser, u);
  }

  /** Inserting a post with the next id and a repeat-free like list keeps
      the store valid. */
  lemma InsertPostKeepsValid(s: Store, p: Post)
    requires Valid(s) && p.id == ObjectId(s.nextId) && KeysDistinct(LikeIds(p.likes), IdOfLiker)
    ensures Valid(s.(posts := s.posts + [p], nextId := s.nextId + 1))
  {
    AppendKeepsDistinct(s.posts, IdOfPost, p);
  }

  /** Inserting a comment with the next id, and moving the counter past
      it, keeps the store valid. */
  lemma InsertCommentKeepsValid(s: Store, c: Comment, next: nat)
    requires Valid(s) && c.id == ObjectId(s.nextId) && next > s.nextId
    ensures Valid(s.(comments := s.comments + [c], nextId := next))
  {
    AppendKeepsDistinct(s.comments, IdOfComment, c);
  }

  /** Rewriting fields of a post other than its id keeps the store valid,
      provided its like list stays repeat-free. */
  lemma ReplacePostKeepsValid(s: Store, i: nat, p: Post)
    requires Valid(s) && i < |s.posts| && p.id == s.posts[i].id
    requires KeysDistinct(LikeIds(p.likes), IdOfLiker)
    ensures Valid(s.(posts := s.posts[i := p]))
  {
    ReplaceKeepsDistinct(s.posts, IdOfPost, i, p);
  }

  /** Rewriting fields of a comment other than its id keeps the store valid. */
  lemma ReplaceCommentKeepsValid(s: Store, i: nat, c: Comment)
    requires Valid(s) && i < |s.comments| && c.id == s.comments[i].id
    ensures Valid(s.(comments := s.comments[i := c]))
  {
    ReplaceKeepsDistinct(s.comments, IdOfComment, i, c);
  }

  /** Deleting one post keeps the store valid. */
  lemma RemovePostKeepsValid(s: Store, i: nat)
    requires Valid(s) && i < |s.posts|
    ensures Valid(s.(posts := RemoveAt(s.posts, i)))
  {
    RemoveAtKeepsDistinct(s.posts, IdOfPost, i);
  }

  /** Deleting one comment keeps the store valid. */
  lemma RemoveCommentKeepsValid(s: Store, i: nat)
    requires Valid(s) && i < |s.comments|
    ensures Valid(s.(comments := RemoveAt(s.comments, i)))
  {
    RemoveAtKeepsDistinct(s.comments, IdOfComment, i);
  }

  /** Deleting any set of comments keeps the store valid. */
  lemma FilterCommentsKeepsValid(s: Store, p: Comment -> bool)
    requires Valid(s)
    ensures Valid(s.(comments := Filter(s.comments, p)))
  {
    FilterKeepsDistinct(s.comments, IdOfComment, p);
    FilterKeepsAll(s.comments, p, (c: Comment) => c.id.value < s.nextId);
  }
}
