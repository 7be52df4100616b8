/**
 * The relational store behind the Twex REST server: the rows of the
 * `users`, `tweets` and `replies` tables, the three pair tables `likes`,
 * `bookmarks` and `follows`, and the HTTP responses the route handlers send.
 *
 * Ids are PostgreSQL SERIAL values: every table keeps the next id it will
 * hand out, and every stored id lies below it.  Dates are day numbers.
 */
module Schema {

  datatype Option<T> = None | Some(value: T)

  /** An HTTP response as a route handler sends it: a status and a JSON body or an error message. */
  datatype Response<T> =
    | Ok(body: T)                    // 200
    | Created(body: T)               // 201
    | BadRequest(message: string)    // 400
    | Unauthorized(message: string)  // 401
    | Forbidden(message: string)     // 403
    | NotFound(message: string)      // 404
    | ServerError(message: string)   // 500
  {
    function Status(): int {
      match this
      case Ok(_) => 200
      case Created(_) => 201
      case BadRequest(_) => 400
      case Unauthorized(_) => 401
      case Forbidden(_) => 403
      case NotFound(_) => 404
      case ServerError(_) => 500
    }
  }

  /** A row of `users`; `password` is the stored hash, absent for accounts made by Google login. */
  datatype User = User(
    username: string,
    email: string,
    password: Option<string>,
    realName: Option<string>,
    avatarUrl: Option<string>,
    dateOfBirth: Option<int>,
    bio: Option<string>)

  /** A row of `tweets` (a post). */
  datatype Tweet = Tweet(author: int, content: string, date: int, image: Option<string>)

  /** A row of `replies`: a comment on the post `tweet`. */
  datatype Reply = Reply(tweet: int, author: int, content: string, date: int, image: Option<string>)

  /** A row of `likes` or `bookmarks` (user, post), or of `follows` (follower, followed). */
  type Pair = (int, int)

  /** A snapshot of the whole database, which is what every read-only route queries. */
  datatype Tables = Tables(
    users: map<int, User>,
    tweets: map<int, Tweet>,
    replies: map<int, Reply>,
    likes: set<Pair>,
    bookmarks: set<Pair>,
    follows: set<Pair>,
    nextUserId: int,
    nextTweetId: int,
    nextReplyId: int)
  {
    /** Every stored id was handed out by its table's SERIAL counter. */
    predicate Valid() {
      && 0 < nextUserId && 0 < nextTweetId && 0 < nextReplyId
      && (forall id :: id in users ==> 0 < id < nextUserId)
      && (forall id :: id in tweets ==> 0 < id < nextTweetId)
      && (forall id :: id in replies ==> 0 < id < nextReplyId)
    }
  }

  /** The public columns of a user (`id, username, real_name, avatar_url, bio`) that user lists return. */
  datatype UserCard = UserCard(
    id: int, username: string, realName: Option<string>, avatarUrl: Option<string>, bio: Option<string>)

  /** The card a list shows for user `id`: that user's own public columns. */
  function CardOf(users: map<int, User>, id: int): (card: UserCard)
    requires id in users
    ensures card.id == id && card.username == users[id].username && card.realName == users[id].realName
    ensures card.avatarUrl == users[id].avatarUrl && card.bio == users[id].bio
  {
    var u := users[id];
    UserCard(id, u.username, u.realName, u.avatarUrl, u.bio)
  }

  /** The cards for `ids`, in the same order. */
  function CardsOf(users: map<int, User>, ids: seq<int>): (cards: seq<UserCard>)
    requires forall i :: 0 <= i < |ids| ==> ids[i] in users
    ensures |cards| == |ids|
    ensures forall i :: 0 <= i < |ids| ==> cards[i] == CardOf(users, ids[i])
  {
    seq(|ids|, i requires 0 <= i < |ids| => CardOf(users, ids[i]))
  }

  /** No two accounts share a username or an email. */
  ghost predicate UniqueAccounts(users: map<int, User>) {
    forall a, b :: a in users && b in users && a != b ==>
      users[a].username != users[b].username && users[a].email != users[b].email
  }

  /** `INSERT ... ON CONFLICT DO NOTHING` on a pair table: the pair is present afterwards, nothing else changes. */
  function Insert(rel: set<Pair>, p: Pair): (rel': set<Pair>)
    ensures p in rel'
    ensures forall q :: q != p ==> (q in rel' <==> q in rel)
  {
    rel + {p}
  }

  /** `DELETE ... WHERE` both columns match: the pair is absent afterwards, nothing else changes. */
  function Delete(rel: set<Pair>, p: Pair): (rel': set<Pair>)
    ensures p !in rel'
    ensures forall q :: q != p ==> (q in rel' <==> q in rel)
  {
    rel - {p}
  }

  /** The database, updated in place by the mutating route handlers. */
  class Store {
    var users: map<int, User>
    var tweets: map<int, Tweet>
    var replies: map<int, Reply>
    var likes: set<Pair>
    var bookmarks: set<Pair>
    var follows: set<Pair>
    var nextUserId: int
    var nextTweetId: int
    var nextReplyId: int

    /** The current contents of every table. */
    function View(): Tables
      reads this
    {
      Tables(users, tweets, replies, likes, bookmarks, follows, nextUserId, nextTweetId, nextReplyId)
    }

    predicate Valid()
      reads this
    {
      View().Valid()
    }

    /** An empty database whose SERIAL counters start at 1. */
    constructor ()
      ensures Valid()
      ensures users == map[] && tweets == map[] && replies == map[]
      ensures likes == {} && bookmarks == {} && follows == {}
      ensures nextUserId == 1 && nextTweetId == 1 && nextReplyId == 1
    {
      users, tweets, replies := map[], map[], map[];
      likes, bookmarks, follows := {}, {}, {};
      nextUserId, nextTweetId, nextReplyId := 1, 1, 1;
    }
  }
}
