/**
 * `server/routes/users.js`: a profile with its counts, the per-user paged
 * lists (posts, replies, liked posts, following, followers) and the
 * follow suggestions.  Every handler only reads.
 */
module Users {
  import opened Schema
  import opened Listing
  import opened PostRows

  // ---------------------------------------------------------------- profile

  /** `SELECT COUNT(*) FROM tweets WHERE user_id = u`. */
  function TweetCount(db: Tables, u: int): nat {
    |set t | t in db.tweets && db.tweets[t].author == u|
  }

  /** `SELECT COUNT(*) FROM follows WHERE following_id = u`. */
  function FollowerCount(follows: set<Pair>, u: int): nat {
    |set p | p in follows && p.1 == u|
  }

  /** `SELECT COUNT(*) FROM follows WHERE follower_id = u`. */
  function FollowingCount(follows: set<Pair>, u: int): nat {
    |set p | p in follows && p.0 == u|
  }

  /** The users who follow `u`. */
  function Followers(follows: set<Pair>, u: int): set<int> {
    set p | p in follows && p.1 == u :: p.0
  }

  /** The users whom `u` follows. */
  function Followed(follows: set<Pair>, u: int): set<int> {
    set p | p in follows && p.0 == u :: p.1
  }

  /** The profile response: every column of the user plus the three counts. */
  datatype ProfileView = ProfileView(id: int, user: User, tweetCount: nat, followerCount: nat, followingCount: nat)

  /** The users named `username`. */
  function Named(db: Tables, username: string): set<int>
  {
    set id | id in db.users && db.users[id].username == username
  }

  /**
   * `GET /:username/profile`: 404 for an unknown username, otherwise the
   * user's row with the number of their posts, followers and followees.
   * The query has no ORDER BY; the model takes the lowest id.
   */
  function UserProfile(db: Tables, username: string): (r: Response<ProfileView>)
    ensures r.Ok? || r == NotFound("User not found")
    ensures db.Valid() ==> (r.NotFound? <==> Named(db, username) == {})
    ensures r.Ok? ==> r.body.id in Named(db, username) && r.body.user == db.users[r.body.id]
    ensures r.Ok? ==> r.body.tweetCount == TweetCount(db, r.body.id)
    ensures r.Ok? ==> r.body.followerCount == |Followers(db.follows, r.body.id)|
    ensures r.Ok? ==> r.body.followingCount == |Followed(db.follows, r.body.id)|
  {
    var ids := Asc(Named(db, username), db.nextUserId);
    if ids == [] then NotFound("User not found")
    else
      var id := ids[0];
      FollowerCountIsFollowers(db.follows, id);
      FollowingCountIsFollowed(db.follows, id);
      Ok(ProfileView(id, db.users[id], TweetCount(db, id),
                     FollowerCount(db.follows, id), FollowingCount(db.follows, id)))
  }

  /** When usernames are unique, the profile found is the one user with that name. */
  lemma ProfileIsTheNamedUser(db: Tables, id: int)
    requires db.Valid() && UniqueAccounts(db.users) && id in db.users
    ensures UserProfile(db, db.users[id].username).Ok?
    ensures UserProfile(db, db.users[id].username).body.id == id
  {
    assert id in Named(db, db.users[id].username);
  }

  /** Counting the pairs whose second column is `u` counts distinct first columns. */
  lemma {:induction false} FirstColumnSize(pairs: set<Pair>, u: int)
    requires forall p :: p in pairs ==> p.1 == u
    ensures |set p | p in pairs :: p.0| == |pairs|
  {
    if pairs != {} {
      var x :| x in pairs;
      FirstColumnSize(pairs - {x}, u);
      assert (set p | p in pairs :: p.0) == (set p | p in pairs - {x} :: p.0) + {x.0};
      assert x.0 !in (set p | p in pairs - {x} :: p.0);
    }
  }

  /** Counting the pairs whose first column is `u` counts distinct second columns. */
  lemma {:induction false} SecondColumnSize(pairs: set<Pair>, u: int)
    requires forall p :: p in pairs ==> p.0 == u
    ensures |set p | p in pairs :: p.1| == |pairs|
  {
    if pairs != {} {
      var x :| x in pairs;
      SecondColumnSize(pairs - {x}, u);
      assert (set p | p in pairs :: p.1) == (set p | p in pairs - {x} :: p.1) + {x.1};
      assert x.1 !in (set p | p in pairs - {x} :: p.1);
    }
  }

  /** `follower_count` is the number of distinct followers. */
  lemma FollowerCountIsFollowers(follows: set<Pair>, u: int)
    ensures FollowerCount(follows, u) == |Followers(follows, u)|
  {
    var pairs := set p | p in follows && p.1 == u;
    FirstColumnSize(pairs, u);
    assert (set p | p in pairs :: p.0) == Followers(follows, u);
  }

  /** `following_count` is the number of distinct followed users. */
  lemma FollowingCountIsFollowed(follows: set<Pair>, u: int)
    ensures FollowingCount(follows, u) == |Followed(follows, u)|
  {
    var pairs := set p | p in follows && p.0 == u;
    SecondColumnSize(pairs, u);
    assert (set p | p in pairs :: p.1) == Followed(follows, u);
  }

  /** A new follow of `b` by `a` adds one to b's follower count and one to a's following count. */
  lemma FollowRaisesCounts(follows: set<Pair>, a: int, b: int)
    requires (a, b) !in follows
    ensures FollowerCount(Insert(follows, (a, b)), b) == FollowerCount(follows, b) + 1
    ensures FollowingCount(Insert(follows, (a, b)), a) == FollowingCount(follows, a) + 1
  {
    assert (set p | p in Insert(follows, (a, b)) && p.1 == b) == (set p | p in follows && p.1 == b) + {(a, b)};
    assert (set p | p in Insert(follows, (a, b)) && p.0 == a) == (set p | p in follows && p.0 == a) + {(a, b)};
  }

  // ------------------------------------------------------------ post lists

  /** The posts by `author` that survive `JOIN users`. */
  function PostsBy(db: Tables, author: int): set<int>
  {
    set id | id in db.tweets && Joined(db, id) && db.tweets[id].author == author
  }

  /**
   * `GET /users/:id/posts`: the profile owner's posts, newest id first,
   * with the like and bookmark flags of the requester `me`.
   */
  function UserPosts(db: Tables, me: int, profileId: int, page: Option<int>): (r: Response<seq<PostRow>>)
    ensures r.Ok? <==> PageNumber(page) >= 1
    ensures r.Ok? ==> |r.body| <= PageSize && IdsDecrease(r.body)
    ensures r.Ok? ==> forall row :: row in r.body ==>
      row.author == profileId && Describes(db, row, me) &&
      row.bookmarkedByCurrentUser == ((me, row.id) in db.bookmarks)
  {
    PostList(db, PostsBy(db, profileId), me, BookmarkedBy(me), PageNumber(page))
  }

  /** Every post by the profile owner is on some page of their post list. */
  lemma UserPostsComplete(db: Tables, me: int, profileId: int, id: int) returns (page: int)
    requires db.Valid() && Joined(db, id) && db.tweets[id].author == profileId
    ensures page >= 1 && UserPosts(db, me, profileId, Some(page)).Ok?
    ensures exists row :: row in UserPosts(db, me, profileId, Some(page)).body && row.id == id
  {
    var k;
    page, k := PostListComplete(db, PostsBy(db, profileId), me, BookmarkedBy(me), id);
    assert UserPosts(db, me, profileId, Some(page)).body[k].id == id;
  }

  /** The posts `liker` likes that survive `JOIN tweets` and `JOIN users`. */
  function LikedBy(db: Tables, liker: int): set<int>
  {
    set id | id in db.tweets && Joined(db, id) && (liker, id) in db.likes
  }

  /** What a row of the liked-posts list says: a post `liker` likes, flagged for `liker`. */
  ghost predicate LikedRow(db: Tables, liker: int, row: PostRow) {
    && row.id in LikedBy(db, liker) && Describes(db, row, liker)
    && row.bookmarkedByCurrentUser == ((liker, row.id) in db.bookmarks)
    && row.likedByCurrentUser
  }

  /** The posts `liker` likes, newest id first, as rows. */
  function LikedById(db: Tables, liker: int): (rows: seq<PostRow>)
    ensures IdsDecrease(rows)
    ensures forall i :: 0 <= i < |rows| ==> LikedRow(db, liker, rows[i])
  {
    var ids := Desc(LikedBy(db, liker), db.nextTweetId);
    AnnotateAll(db, ids, liker, BookmarkedBy(liker))
  }

  /**
   * Every post `liker` likes, newest date first; equal dates keep
   * descending id order.
   */
  function LikedRows(db: Tables, liker: int): (rows: seq<PostRow>)
    ensures DatesDescend(rows)
    ensures multiset(rows) == multiset(LikedById(db, liker))
    ensures forall row :: row in rows ==> LikedRow(db, liker, row)
  {
    var byId := LikedById(db, liker);
    var rows := SortByDate(byId);
    forall row | row in rows
      ensures LikedRow(db, liker, row)
    {
      SortKeepsRows(byId, row);
      var a :| 0 <= a < |byId| && byId[a] == row;
    }
    rows
  }

  /** No post appears twice in the liked-posts listing. */
  lemma LikedRowsUnique(db: Tables, liker: int)
    ensures IdsDistinct(LikedRows(db, liker))
  {
    var byId := LikedById(db, liker);
    assert IdsDistinct(byId);
    PermutationKeepsIdsDistinct(LikedRows(db, liker), byId);
  }

  /**
   * `GET /users/:id/likes`: the posts the profile owner likes, ten per
   * page, ordered by post date rather than id.  The flags test the profile
   * owner, not the requester, so `liked_by_current_user` is always true.
   */
  function UserLikes(db: Tables, profileId: int, page: Option<int>): (r: Response<seq<PostRow>>)
    ensures r.Ok? <==> PageNumber(page) >= 1
    ensures r.Ok? ==> |r.body| <= PageSize && DatesDescend(r.body) && IdsDistinct(r.body)
    ensures r.Ok? ==> forall row :: row in r.body ==> LikedRow(db, profileId, row)
    ensures r.Ok? ==> forall i :: 0 <= i < |r.body| ==>
      Offset(PageNumber(page)) + i < |LikedRows(db, profileId)| &&
      r.body[i] == LikedRows(db, profileId)[Offset(PageNumber(page)) + i]
    ensures r.Ok? && |r.body| < PageSize ==> Offset(PageNumber(page)) + |r.body| >= |LikedRows(db, profileId)|
  {
    var rows := LikedRows(db, profileId);
    var p := PageNumber(page);
    if p >= 1 then
      LikedRowsUnique(db, profileId);
      PageOfRows(rows, p);
      Page(rows, p)
    else Page(rows, p)
  }

  /** Every post the profile owner likes is on some page of their likes list. */
  lemma UserLikesComplete(db: Tables, profileId: int, id: int) returns (page: int)
    requires db.Valid() && Joined(db, id) && (profileId, id) in db.likes
    ensures page >= 1 && UserLikes(db, profileId, Some(page)).Ok?
    ensures exists row :: row in UserLikes(db, profileId, Some(page)).body && row.id == id
  {
    var rows := LikedRows(db, profileId);
    var i := LikedRowIndex(db, profileId, id);
    RowOnPage(rows, i);
    page := i / PageSize + 1;
    assert UserLikes(db, profileId, Some(page)) == Page(rows, page);
    assert Page(rows, page).body[i % PageSize] == rows[i];
  }

  /** A likes page shorter than ten posts is the end of the list. */
  lemma UserLikesShortPageIsLast(db: Tables, profileId: int, page: int, later: int)
    requires page >= 1 && UserLikes(db, profileId, Some(page)).Ok? && |UserLikes(db, profileId, Some(page)).body| < PageSize
    requires later > page
    ensures UserLikes(db, profileId, Some(later)) == Ok([])
  {
    assert PageNumber(Some(page)) == page && PageNumber(Some(later)) == later;
    ShortPageIsLast(LikedRows(db, profileId), page, later);
  }

  /** Where a liked post sits in the id-ordered list. */
  lemma LikedByIdIndex(db: Tables, liker: int, id: int) returns (a: int)
    requires db.Valid() && id in LikedBy(db, liker)
    ensures 0 <= a < |LikedById(db, liker)| && LikedById(db, liker)[a].id == id
  {
    var ids := Desc(LikedBy(db, liker), db.nextTweetId);
    assert id in ids;
    a :| 0 <= a < |ids| && ids[a] == id;
  }

  /** Where a liked post sits in the date-ordered list. */
  lemma LikedRowIndex(db: Tables, liker: int, id: int) returns (i: int)
    requires db.Valid() && Joined(db, id) && (liker, id) in db.likes
    ensures 0 <= i < |LikedRows(db, liker)| && LikedRows(db, liker)[i].id == id
  {
    var byId := LikedById(db, liker);
    var rows := LikedRows(db, liker);
    var a := LikedByIdIndex(db, liker, id);
    SortKeepsRows(byId, byId[a]);
    i :| 0 <= i < |rows| && rows[i] == byId[a];
  }

  // --------------------------------------------------------- replies list

  /** A row of `GET /users/:id/replies`: the reply and its author, beside the parent post and its author. */
  datatype ThreadRow = ThreadRow(
    replyId: int, replyContent: string, replyDate: int, replyImage: Option<string>,
    replyAuthor: int, replyUsername: string, replyRealName: Option<string>, replyAvatarUrl: Option<string>,
    tweetId: int, tweetContent: string, tweetDate: int, tweetImage: Option<string>,
    tweetAuthor: int, tweetUsername: string, tweetRealName: Option<string>, tweetAvatarUrl: Option<string>)

  /** The four inner joins of the replies query keep reply `r`. */
  predicate ThreadJoined(db: Tables, r: int) {
    && r in db.replies && db.replies[r].author in db.users
    && db.replies[r].tweet in db.tweets && db.tweets[db.replies[r].tweet].author in db.users
  }

  /** What a thread row says: the reply's and its parent post's own columns and authors. */
  ghost predicate ShowsThread(db: Tables, row: ThreadRow) {
    && ThreadJoined(db, row.replyId)
    && var rp := db.replies[row.replyId];
    && var ru := db.users[rp.author];
    && var t := db.tweets[rp.tweet];
    && var tu := db.users[t.author];
    && row.replyContent == rp.content && row.replyDate == rp.date && row.replyImage == rp.image
    && row.replyAuthor == rp.author && row.replyUsername == ru.username
    && row.replyRealName == ru.realName && row.replyAvatarUrl == ru.avatarUrl
    && row.tweetId == rp.tweet && row.tweetContent == t.content && row.tweetDate == t.date
    && row.tweetImage == t.image && row.tweetAuthor == t.author && row.tweetUsername == tu.username
    && row.tweetRealName == tu.realName && row.tweetAvatarUrl == tu.avatarUrl
  }

  function ThreadRowOf(db: Tables, r: int): ThreadRow
    requires ThreadJoined(db, r)
  {
    var rp := db.replies[r];
    var ru := db.users[rp.author];
    var t := db.tweets[rp.tweet];
    var tu := db.users[t.author];
    ThreadRow(r, rp.content, rp.date, rp.image, rp.author, ru.username, ru.realName, ru.avatarUrl,
              rp.tweet, t.content, t.date, t.image, t.author, tu.username, tu.realName, tu.avatarUrl)
  }

  /** The replies written by `author` that survive the joins. */
  function RepliesBy(db: Tables, author: int): set<int>
  {
    set r | r in db.replies && ThreadJoined(db, r) && db.replies[r].author == author
  }

  /** Every reply by `author` paired with its parent post, newest reply id first. */
  function ThreadRows(db: Tables, author: int): (rows: seq<ThreadRow>)
    ensures forall i :: 0 <= i < |rows| ==> ShowsThread(db, rows[i]) && rows[i].replyAuthor == author
    ensures forall i, j :: 0 <= i < j < |rows| ==> rows[i].replyId > rows[j].replyId
    ensures db.Valid() ==> forall r :: r in RepliesBy(db, author) ==>
      exists i :: 0 <= i < |rows| && rows[i].replyId == r
  {
    var ids := Desc(RepliesBy(db, author), db.nextReplyId);
    var rows := seq(|ids|, i requires 0 <= i < |ids| => ThreadRowOf(db, ids[i]));
    forall i | 0 <= i < |rows|
      ensures rows[i].replyId == ids[i] && ShowsThread(db, rows[i]) && rows[i].replyAuthor == author
    {
      assert ids[i] in RepliesBy(db, author);
    }
    rows
  }

  /** `GET /users/:id/replies`: the profile owner's replies with their parent posts, ten per page. */
  function UserReplies(db: Tables, profileId: int, page: Option<int>): (r: Response<seq<ThreadRow>>)
    ensures r.Ok? <==> PageNumber(page) >= 1
    ensures r.Ok? ==> |r.body| <= PageSize
    ensures r.Ok? ==> forall i :: 0 <= i < |r.body| ==> ShowsThread(db, r.body[i]) && r.body[i].replyAuthor == profileId
    ensures r.Ok? ==> forall i, j :: 0 <= i < j < |r.body| ==> r.body[i].replyId > r.body[j].replyId
    ensures r.Ok? ==> forall i :: 0 <= i < |r.body| ==>
      Offset(PageNumber(page)) + i < |ThreadRows(db, profileId)| &&
      r.body[i] == ThreadRows(db, profileId)[Offset(PageNumber(page)) + i]
    ensures r.Ok? && |r.body| < PageSize ==> Offset(PageNumber(page)) + |r.body| >= |ThreadRows(db, profileId)|
  {
    var rows := ThreadRows(db, profileId);
    var r := Page(rows, PageNumber(page));
    assert r.Ok? ==> forall i :: 0 <= i < |r.body| ==> r.body[i] == rows[Offset(PageNumber(page)) + i];
    r
  }

  /** Every reply by the profile owner whose joins hold is on some page of their replies list. */
  lemma UserRepliesComplete(db: Tables, profileId: int, reply: int) returns (page: int)
    requires db.Valid() && ThreadJoined(db, reply) && db.replies[reply].author == profileId
    ensures page >= 1 && UserReplies(db, profileId, Some(page)).Ok?
    ensures exists row :: row in UserReplies(db, profileId, Some(page)).body && row.replyId == reply
  {
    var rows := ThreadRows(db, profileId);
    assert reply in RepliesBy(db, profileId);
    var i :| 0 <= i < |rows| && rows[i].replyId == reply;
    RowOnPage(rows, i);
    page := i / PageSize + 1;
    assert UserReplies(db, profileId, Some(page)) == Page(rows, page);
    assert Page(rows, page).body[i % PageSize] == rows[i];
  }

  /** A replies page shorter than ten rows is the end of the list. */
  lemma UserRepliesShortPageIsLast(db: Tables, profileId: int, page: int, later: int)
    requires page >= 1 && UserReplies(db, profileId, Some(page)).Ok? && |UserReplies(db, profileId, Some(page)).body| < PageSize
    requires later > page
    ensures UserReplies(db, profileId, Some(later)) == Ok([])
  {
    assert PageNumber(Some(page)) == page && PageNumber(Some(later)) == later;
    ShortPageIsLast(ThreadRows(db, profileId), page, later);
  }

  // ------------------------------------------------ following / followers

  /**
   * The cards for the users in `keys`, ten per page.  The source orders by
   * `follows.created_at`, a column this model does not keep; the model
   * orders by descending user id instead.
   */
  function CardPage(db: Tables, keys: set<int>, page: int): (r: Response<seq<UserCard>>)
    requires keys <= db.users.Keys
    ensures r.Ok? <==> page >= 1
    ensures r.Ok? ==> |r.body| <= PageSize && Distinct(r.body)
    ensures r.Ok? ==> forall c :: c in r.body ==> c.id in keys && c == CardOf(db.users, c.id)
    ensures r.Ok? ==> forall i :: 0 <= i < |r.body| ==>
      Offset(page) + i < |Desc(keys, db.nextUserId)| && r.body[i].id == Desc(keys, db.nextUserId)[Offset(page) + i]
    ensures r.Ok? && |r.body| < PageSize ==> Offset(page) + |r.body| >= |Desc(keys, db.nextUserId)|
  {
    var ids := Desc(keys, db.nextUserId);
    var cards := CardsOf(db.users, ids);
    var r := Page(cards, page);
    if r.Ok? then
      forall i | 0 <= i < |r.body|
        ensures Offset(page) + i < |ids| && r.body[i] == cards[Offset(page) + i] && r.body[i].id == ids[Offset(page) + i]
      {
      }
      forall i, j | 0 <= i < j < |r.body|
        ensures r.body[i] != r.body[j]
      {
        assert r.body[i].id == ids[Offset(page) + i] && r.body[j].id == ids[Offset(page) + j];
      }
      r
    else r
  }

  /** A card page shorter than ten cards is the end of the list. */
  lemma CardPageShortPageIsLast(db: Tables, keys: set<int>, page: int, later: int)
    requires keys <= db.users.Keys
    requires CardPage(db, keys, page).Ok? && |CardPage(db, keys, page).body| < PageSize
    requires later > page
    ensures CardPage(db, keys, later) == Ok([])
  {
    ShortPageIsLast(CardsOf(db.users, Desc(keys, db.nextUserId)), page, later);
  }

  /** Every user in scope is on some page of a card list. */
  lemma CardPageComplete(db: Tables, keys: set<int>, id: int) returns (page: int)
    requires db.Valid() && keys <= db.users.Keys && id in keys
    ensures page >= 1 && CardPage(db, keys, page).Ok? && CardOf(db.users, id) in CardPage(db, keys, page).body
  {
    var ids := Desc(keys, db.nextUserId);
    var cards := CardsOf(db.users, ids);
    assert id in ids;
    var i :| 0 <= i < |ids| && ids[i] == id;
    RowOnPage(cards, i);
    page := i / PageSize + 1;
  }

  /** The users `u` follows whose rows exist: `follows JOIN users ON following_id = users.id`. */
  function FollowedUsers(db: Tables, u: int): set<int>
  {
    set v | v in db.users && (u, v) in db.follows
  }

  /** The users who follow `u` whose rows exist: `follows JOIN users ON follower_id = users.id`. */
  function FollowingUsers(db: Tables, u: int): set<int>
  {
    set v | v in db.users && (v, u) in db.follows
  }

  /** `GET /users/:id/following`: cards of the users the profile owner follows. */
  function UserFollowing(db: Tables, profileId: int, page: Option<int>): (r: Response<seq<UserCard>>)
    ensures r.Ok? <==> PageNumber(page) >= 1
    ensures r.Ok? ==> |r.body| <= PageSize
    ensures r.Ok? ==> forall c :: c in r.body ==>
      c.id in db.users && (profileId, c.id) in db.follows && c == CardOf(db.users, c.id)
  {
    CardPage(db, FollowedUsers(db, profileId), PageNumber(page))
  }

  /** `GET /users/:id/followers`: cards of the users who follow the profile owner. */
  function UserFollowers(db: Tables, profileId: int, page: Option<int>): (r: Response<seq<UserCard>>)
    ensures r.Ok? <==> PageNumber(page) >= 1
    ensures r.Ok? ==> |r.body| <= PageSize
    ensures r.Ok? ==> forall c :: c in r.body ==>
      c.id in db.users && (c.id, profileId) in db.follows && c == CardOf(db.users, c.id)
  {
    CardPage(db, FollowingUsers(db, profileId), PageNumber(page))
  }

  /** Every followed user, and every follower, is on some page of the matching list. */
  lemma FollowListsComplete(db: Tables, a: int, b: int) returns (pa: int, pb: int)
    requires db.Valid() && a in db.users && b in db.users && (a, b) in db.follows
    ensures pa >= 1 && UserFollowing(db, a, Some(pa)).Ok? && CardOf(db.users, b) in UserFollowing(db, a, Some(pa)).body
    ensures pb >= 1 && UserFollowers(db, b, Some(pb)).Ok? && CardOf(db.users, a) in UserFollowers(db, b, Some(pb)).body
  {
    pa := CardPageComplete(db, FollowedUsers(db, a), b);
    pb := CardPageComplete(db, FollowingUsers(db, b), a);
  }

  // ----------------------------------------------------------- suggestions

  /** The users `me` could be offered: anyone but `me` and those `me` already follows. */
  function Candidates(db: Tables, me: int): set<int>
  {
    set v | v in db.users && v != me && (me, v) !in db.follows
  }

  /**
   * `GET /users/suggestions?limit=N`: at most `parseInt(limit) || 5`
   * candidates; the source picks them in random order, the model in
   * ascending id.  A negative limit is rejected by PostgreSQL.
   */
  function Suggestions(db: Tables, me: int, limit: Option<int>): (r: Response<seq<UserCard>>)
    ensures r.Ok? <==> ParsedOr(limit, 5) >= 0
    ensures !r.Ok? ==> r == ServerError("LIMIT must not be negative")
    ensures r.Ok? ==> |r.body| <= ParsedOr(limit, 5) && Distinct(r.body)
    ensures r.Ok? ==> forall c :: c in r.body ==> c.id in Candidates(db, me) && c == CardOf(db.users, c.id)
  {
    var ids := Asc(Candidates(db, me), db.nextUserId);
    var cards := CardsOf(db.users, ids);
    assert forall i, j :: 0 <= i < j < |cards| ==> cards[i].id < cards[j].id;
    Limit(cards, ParsedOr(limit, 5))
  }

  /** Suggestions fill the limit whenever there are enough candidates: exactly `Min(limit, candidates)` cards. */
  lemma SuggestionsSize(db: Tables, me: int, limit: Option<int>)
    requires db.Valid() && ParsedOr(limit, 5) >= 0
    ensures |Suggestions(db, me, limit).body| == Min(ParsedOr(limit, 5), |Candidates(db, me)|)
  {
    var ids := Asc(Candidates(db, me), db.nextUserId);
    assert Distinct(ids);
    assert (set x | x in ids) == Candidates(db, me);
    DistinctSize(ids);
  }
}
