/** What a handler sends back: a status code and a JSON body, together with
    the database as the handler leaves it. */
module Http {
  import opened Wrappers
  import opened Documents
  import opened Enrichment

  const Ok := 200
  const Created := 201
  const BadRequest := 400
  const Unauthorized := 401
  const Forbidden := 403
  const NotFound := 404
  const ServerError := 500

  /** The JSON bodies the handlers produce. */
  datatype Body =
    | Error(error: string)                       // { error }
    | Message(message: string)                   // { message }
    | LibraryError                               // { error: err.message } from a thrown driver error
    | CreatedPost(post: Post)                    // the inserted post with its _id
    | Toggled(liked: bool)                       // { success: true, liked }
    | FeedList(entries: seq<EnrichedPost>)
    | TopList(ranked: seq<RankedPost>)
    | SinglePost(entry: EnrichedPost)
    | CommentList(comments: seq<Comment>)
    | LoggedIn(message: string, userId: ObjectId, username: string)
    | UserStats(user: Option<PublicUser>, totalPosts: nat, totalLikesReceived: int)

  datatype Response = Response(status: nat, body: Body)

  /** The state a handler leaves and the response it sends. */
  datatype Reply = Reply(store: Store, response: Response)

  /** `res.status(status).json({ error: message })`. */
  function Fail(status: nat, message: string): Response {
    Response(status, Error(message))
  }

  /** `req.body.<field> || ''` for a text field: an absent field reads as empty. */
  function FieldText(field: Option<string>): string {
    if field.Some? then field.value else ""
  }
}
