/** The user controller: registration, login and per-user post statistics. */
module Users {
  import opened Wrappers
  import opened Collections
  import opened Documents
  import opened Http

  /** `bcrypt.hash(password, 10)`; the salt it draws is folded into the
      function. */
  type PasswordHasher = string -> string

  /** `bcrypt.compare(password, hash)`. */
  type PasswordChecker = (string, string) -> bool

  /** The avatar every new account starts with. */
  const DefaultAvatar := "https://placehold.co/150"

  /** `registerUser`: 400 when a user already has the email, and nothing
      changes; 500 when the password is missing, because `bcrypt.hash`
      throws on it; otherwise exactly one user is added, with role "user",
      an empty bio, the default avatar and the hash of the password. */
  function RegisterUser(hash: PasswordHasher, s: Store, username: string, email: string, password: Option<string>, now: nat): (out: Reply)
    ensures out.response.status != Created ==> out.store == s
    ensures (exists k :: 0 <= k < |s.users| && s.users[k].email == email) ==>
      out == Reply(s, Fail(BadRequest, "Email already exists"))
    ensures ((forall k :: 0 <= k < |s.users| ==> s.users[k].email != email) && password.None?) ==>
      out == Reply(s, Response(ServerError, LibraryError))
    ensures out.response.status == Created <==>
      (forall k :: 0 <= k < |s.users| ==> s.users[k].email != email) && password.Some?
    ensures out.response.status == Created ==>
      && out.response == Response(Created, Message("User registered successfully"))
      && out.store.posts == s.posts && out.store.comments == s.comments
      && |out.store.users| == |s.users| + 1
      && out.store.users[..|s.users|] == s.users
      && var u := out.store.users[|s.users|];
      && u.username == username && u.email == email
      && u.passwordHash == hash(password.value)
      && u.bio == "" && u.avatarUrl == DefaultAvatar && u.role == "user" && u.createdAt == now
      && (Valid(s) ==> forall k :: 0 <= k < |s.users| ==> s.users[k].id != u.id)
    ensures Valid(s) ==> Valid(out.store)
  {
    match FindUserByEmail(s.users, email)
    case Some(_) => Reply(s, Fail(BadRequest, "Email already exists"))
    case None =>
      match password
      case None => Reply(s, Response(ServerError, LibraryError))
      case Some(pw) =>
        var u := User(ObjectId(s.nextId), username, email, hash(pw), "", DefaultAvatar, now, "user");
        var s' := s.(users := s.users + [u], nextId := s.nextId + 1);
        assert s'.users[..|s.users|] == s.users;
        assert Valid(s) ==> Valid(s') by {
          if Valid(s) { InsertUserKeepsValid(s, u); }
        }
        Reply(s', Response(Created, Message("User registered successfully")))
  }

  /** `loginUser`: 400 "User not found" when no user has the email, 500
      when the password is missing, because `bcrypt.compare` throws on it,
      400 "Invalid password" when the password does not match that user's
      hash, else that user's id and name. Nothing is written. */
  function LoginUser(check: PasswordChecker, s: Store, email: string, password: Option<string>): (resp: Response)
    ensures (forall k :: 0 <= k < |s.users| ==> s.users[k].email != email) ==>
      resp == Fail(BadRequest, "User not found")
    ensures (FindUserByEmail(s.users, email).Some? && password.None?) ==>
      resp == Response(ServerError, LibraryError)
    ensures (FindUserByEmail(s.users, email).Some? && password.Some?
      && !check(password.value, s.users[FindUserByEmail(s.users, email).value].passwordHash)) ==>
      resp == Fail(BadRequest, "Invalid password")
    ensures resp.status == Ok <==>
      exists k :: (0 <= k < |s.users| && s.users[k].email == email
        && FindUserByEmail(s.users, email) == Some(k)
        && password.Some? && check(password.value, s.users[k].passwordHash))
    ensures resp.status == Ok ==>
      && FindUserByEmail(s.users, email).Some?
      && var u := s.users[FindUserByEmail(s.users, email).value];
      && resp.body.LoggedIn? && resp.body.message == "Login successful"
      && u.email == email && resp.body.userId == u.id && resp.body.username == u.username
  {
    match FindUserByEmail(s.users, email)
    case None => Fail(BadRequest, "User not found")
    case Some(k) =>
      match password
      case None => Response(ServerError, LibraryError)
      case Some(pw) =>
        var u := s.users[k];
        if !check(pw, u.passwordHash) then Fail(BadRequest, "Invalid password")
        else Response(Ok, LoggedIn("Login successful", u.id, u.username))
  }

  /** The `$group` result of `getUserStats` (without `avgViews`). */
  datatype Stats = Stats(totalPosts: nat, totalLikesReceived: int)

  /** `metrics.likes_count` as `$sum` reads it: a missing value adds 0. */
  function LikesMetric(p: Post): int {
    if p.likesMetric.Some? then p.likesMetric.value else 0
  }

  /** The `$sum` of `metrics.likes_count` over a run of posts. */
  function MetricSum(ps: seq<Post>): int {
    if ps == [] then 0 else LikesMetric(ps[0]) + MetricSum(ps[1..])
  }

  /** `MetricSum` of a run with a known head. */
  lemma MetricSumCons(p: Post, ps: seq<Post>)
    ensures MetricSum([p] + ps) == LikesMetric(p) + MetricSum(ps)
  {
    assert ([p] + ps)[0] == p && ([p] + ps)[1..] == ps;
  }

  /** `$match: {user_id}` then `$group` with `$sum: 1` and
      `$sum: "$metrics.likes_count"`: the number of the user's posts and the
      sum of their recorded like metrics; with no posts, both are 0. The
      `likes` arrays play no part. */
  function PostStats(posts: seq<Post>, id: ObjectId): (r: Stats)
    ensures r.totalPosts == |Filter(posts, (p: Post) => p.userId == id)|
    ensures r.totalLikesReceived == MetricSum(Filter(posts, (p: Post) => p.userId == id))
    ensures r.totalPosts == 0 ==> r.totalLikesReceived == 0
  {
    if posts == [] then Stats(0, 0)
    else
      var rest := PostStats(posts[1..], id);
      var mine := Filter(posts[1..], (p: Post) => p.userId == id);
      assert Filter(posts, (p: Post) => p.userId == id) ==
        if posts[0].userId == id then [posts[0]] + mine else mine;
      MetricSumCons(posts[0], mine);
      if posts[0].userId == id then Stats(rest.totalPosts + 1, rest.totalLikesReceived + LikesMetric(posts[0]))
      else rest
  }

  /** `getUserStats`: an id that does not parse makes `new ObjectId` throw
      (500). Otherwise 200 with the user's post statistics and the user
      without the password hash, or no user when none has the id. */
  function GetUserStats(parseId: IdParser, s: Store, rawId: string): (resp: Response)
    ensures parseId(rawId).None? ==> resp == Response(ServerError, LibraryError)
    ensures parseId(rawId).Some? ==>
      && resp.status == Ok && resp.body.UserStats?
      && var id := parseId(rawId).value;
      && resp.body.totalPosts == |Filter(s.posts, (p: Post) => p.userId == id)|
      && resp.body.totalLikesReceived == MetricSum(Filter(s.posts, (p: Post) => p.userId == id))
      && (resp.body.totalPosts == 0 ==> resp.body.totalLikesReceived == 0)
      && resp.body.user == (if FindUser(s.users, id).Some?
            then Some(Public(s.users[FindUser(s.users, id).value])) else None)
      && (resp.body.user.Some? ==> resp.body.user.value.id == id)
      && (resp.body.user.None? <==> forall k :: 0 <= k < |s.users| ==> s.users[k].id != id)
  {
    match parseId(rawId)
    case None => Response(ServerError, LibraryError)
    case Some(id) =>
      var stats := PostStats(s.posts, id);
      var user := match FindUser(s.users, id)
        case Some(k) => Some(Public(s.users[k]))
        case None => None;
      Response(Ok, UserStats(user, stats.totalPosts, stats.totalLikesReceived))
  }

  /** Statistics over two runs of posts add up. */
  lemma {:induction false} PostStatsAppend(xs: seq<Post>, ys: seq<Post>, id: ObjectId)
    ensures PostStats(xs + ys, id).totalPosts == PostStats(xs, id).totalPosts + PostStats(ys, id).totalPosts
    ensures PostStats(xs + ys, id).totalLikesReceived
      == PostStats(xs, id).totalLikesReceived + PostStats(ys, id).totalLikesReceived
  {
    if xs == [] {
      assert xs + ys == ys;
    } else {
      assert (xs + ys)[0] == xs[0];
      assert (xs + ys)[1..] == xs[1..] + ys;
      PostStatsAppend(xs[1..], ys, id);
    }
  }

  /** Statistics read only each post's owner and like metric. */
  lemma {:induction false} PostStatsReadOwnerAndMetric(xs: seq<Post>, ys: seq<Post>, id: ObjectId)
    requires |xs| == |ys|
    requires forall k :: 0 <= k < |xs| ==> xs[k].userId == ys[k].userId && xs[k].likesMetric == ys[k].likesMetric
    ensures PostStats(xs, id) == PostStats(ys, id)
  {
    if xs != [] {
      PostStatsReadOwnerAndMetric(xs[1..], ys[1..], id);
    }
  }
}
