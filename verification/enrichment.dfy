/** The read-side joins of the post controller: a post with its author,
    its comments and its two counters, the newest-first feed, and the
    top-five ranking. */
module Enrichment {
  import opened Wrappers
  import opened Collections
  import opened Sorting
  import opened Documents

  /** A post as the feed pipelines return it: the document, the
      `post_comments` it joins, the `author_details` it joins (none when no
      user matches), `commentsCount` and `likesCount`. */
  datatype EnrichedPost = EnrichedPost(
    post: Post,
    comments: seq<Comment>,
    author: Option<User>,
    commentsCount: nat,
    likesCount: nat)

  /** A post as the top-posts pipeline returns it: no comments joined. */
  datatype RankedPost = RankedPost(post: Post, likesCount: nat, author: Option<User>)

  /** `likesCount`: the size of `likes` when it is an array, else 0. */
  function LikesCount(p: Post): nat {
    |LikeIds(p.likes)|
  }

  /** A sequence without repeats has as many members as elements. */
  lemma {:induction false} DistinctCardinality(xs: seq<ObjectId>)
    requires KeysDistinct(xs, IdOfLiker)
    ensures |set x | x in xs| == |xs|
  {
    if xs != [] {
      var tail := xs[1..];
      assert KeysDistinct(tail, IdOfLiker) by {
        forall i, j | 0 <= i < j < |tail| ensures IdOfLiker(tail[i]) != IdOfLiker(tail[j]) {
          assert tail[i] == xs[i + 1] && tail[j] == xs[j + 1];
        }
      }
      DistinctCardinality(tail);
      assert xs[0] !in tail by {
        forall k | 0 <= k < |tail| ensures tail[k] != xs[0] {
          assert tail[k] == xs[k + 1];
        }
      }
      assert (set x | x in xs) == {xs[0]} + (set x | x in tail);
    }
  }

  /** The counter never drifts from the like set: while the like list holds
      no id twice, `likesCount` is the number of distinct users who liked. */
  lemma LikesCountIsLikers(p: Post)
    requires KeysDistinct(LikeIds(p.likes), IdOfLiker)
    ensures LikesCount(p) == |Likers(p.likes)|
  {
    DistinctCardinality(LikeIds(p.likes));
  }

  /** `$lookup` of the author followed by `$unwind` with
      `preserveNullAndEmptyArrays`: the user whose id is the post's
      `user_id`, or none, in which case the post is kept with no author. */
  function AuthorOf(users: seq<User>, id: ObjectId): (r: Option<User>)
    ensures r.Some? ==> r.value in users && r.value.id == id
    ensures r.None? <==> forall k :: 0 <= k < |users| ==> users[k].id != id
  {
    match FindUser(users, id)
    case Some(i) => Some(users[i])
    case None => None
  }

  /** The `$lookup`/`$unwind`/`$addFields` stages applied to one post. */
  function Enrich(s: Store, p: Post): (e: EnrichedPost)
    ensures e.post == p
    ensures e.commentsCount == |e.comments|
    ensures forall c :: multiset(e.comments)[c] == if c.postId == p.id then multiset(s.comments)[c] else 0
    ensures e.likesCount == |LikeIds(p.likes)|
    ensures p.likes.LikeList? ==> e.likesCount == |p.likes.ids|
    ensures !p.likes.LikeList? ==> e.likesCount == 0
    ensures e.author == AuthorOf(s.users, p.userId)
    ensures e.author.Some? ==> e.author.value in s.users && e.author.value.id == p.userId
    ensures e.author.None? <==> forall k :: 0 <= k < |s.users| ==> s.users[k].id != p.userId
  {
    var cs := CommentsOn(s.comments, p.id);
    EnrichedPost(p, cs, AuthorOf(s.users, p.userId), |cs|, LikesCount(p))
  }

  /** The feed ranks by `created_at`, newest first. */
  function ByNewest(p: Post): Key {
    Key(p.createdAt, 0)
  }

  /** The top-posts ranking: `likesCount` descending, then `created_at`
      descending. */
  function ByLikes(p: Post): Key {
    Key(LikesCount(p), p.createdAt)
  }
}
