/**
 * `server/routes/posts.js`: the home feed, single-post lookup, post
 * creation, editing and deletion, and a post's replies.
 */
module Posts {
  import opened Schema
  import opened Listing
  import opened PostRows

  /** The posts the feed draws from: all joined posts, or only those by authors `me` follows. */
  function FeedScope(db: Tables, me: int, following: bool): set<int>
  {
    set id | id in db.tweets && Joined(db, id) && (following ==> (me, db.tweets[id].author) in db.follows)
  }

  /**
   * `GET /posts?type=T&page=N`.  Only `type == "following"` restricts the
   * feed; a missing or any other type is the whole feed.
   */
  function Feed(db: Tables, me: int, kind: Option<string>, page: Option<int>): (r: Response<seq<PostRow>>)
    ensures r.Ok? <==> PageNumber(page) >= 1
    ensures r.Ok? ==> |r.body| <= PageSize && IdsDecrease(r.body)
    ensures r.Ok? ==> forall row :: row in r.body ==>
      Describes(db, row, me) && row.bookmarkedByCurrentUser == ((me, row.id) in db.bookmarks)
    ensures r.Ok? && kind == Some("following") ==> forall row :: row in r.body ==> (me, row.author) in db.follows
  {
    PostList(db, FeedScope(db, me, kind == Some("following")), me, BookmarkedBy(me), PageNumber(page))
  }

  /** Any type other than "following", including none, gives the same feed as "all". */
  lemma OtherTypesMeanAll(db: Tables, me: int, kind: Option<string>, page: Option<int>)
    requires kind != Some("following")
    ensures Feed(db, me, kind, page) == Feed(db, me, Some("all"), page)
    ensures Feed(db, me, kind, page) == Feed(db, me, None, page)
  {
  }

  /**
   * Every post in the feed's scope is on some page: with `type=following`,
   * every post by a followed author whose row joins; otherwise every post.
   */
  lemma FeedComplete(db: Tables, me: int, kind: Option<string>, id: int) returns (page: int)
    requires db.Valid() && Joined(db, id)
    requires kind == Some("following") ==> (me, db.tweets[id].author) in db.follows
    ensures page >= 1 && Feed(db, me, kind, Some(page)).Ok?
    ensures exists row :: row in Feed(db, me, kind, Some(page)).body && row.id == id
  {
    var k;
    page, k := PostListComplete(db, FeedScope(db, me, kind == Some("following")), me, BookmarkedBy(me), id);
    assert Feed(db, me, kind, Some(page)).body[k].id == id;
  }

  /** Two different pages of the same feed over an unchanged store share no post. */
  lemma FeedPagesDisjoint(db: Tables, me: int, kind: Option<string>, p: int, q: int, id: int)
    requires 1 <= p && 1 <= q && p != q
    ensures !((exists a :: a in Feed(db, me, kind, Some(p)).body && a.id == id) &&
              (exists b :: b in Feed(db, me, kind, Some(q)).body && b.id == id))
  {
    var keys := FeedScope(db, me, kind == Some("following"));
    assert PageNumber(Some(p)) == p && PageNumber(Some(q)) == q;
    PostListPagesDisjoint(db, keys, me, BookmarkedBy(me), p, q);
  }

  /** A feed page shorter than ten posts is the end of the feed. */
  lemma FeedShortPageIsLast(db: Tables, me: int, kind: Option<string>, page: int, later: int)
    requires page >= 1 && Feed(db, me, kind, Some(page)).Ok? && |Feed(db, me, kind, Some(page)).body| < PageSize
    requires later > page
    ensures Feed(db, me, kind, Some(later)) == Ok([])
  {
    assert PageNumber(Some(page)) == page && PageNumber(Some(later)) == later;
    PostListShortPageIsLast(db, FeedScope(db, me, kind == Some("following")), me, BookmarkedBy(me), page, later);
  }

  /** The columns `GET /post/:id` returns. */
  datatype PostView = PostView(
    id: int, content: string, image: Option<string>, author: int,
    username: string, realName: Option<string>, avatarUrl: Option<string>)

  /** `GET /post/:id`: the post joined with its author, or 404 when no row joins. */
  function GetPost(db: Tables, id: int): (r: Response<PostView>)
    ensures r.Ok? || r == NotFound("Post not found")
    ensures r.Ok? <==> Joined(db, id)
    ensures r.Ok? ==> var t := db.tweets[id]; var u := db.users[t.author];
      r.body.id == id && r.body.content == t.content && r.body.image == t.image &&
      r.body.author == t.author && r.body.username == u.username &&
      r.body.realName == u.realName && r.body.avatarUrl == u.avatarUrl
  {
    if !Joined(db, id) then NotFound("Post not found")
    else
      var t := db.tweets[id];
      var u := db.users[t.author];
      Ok(PostView(id, t.content, t.image, t.author, u.username, u.realName, u.avatarUrl))
  }

  /**
   * `POST /create/post`: inserts one post by the requester, dated `today`,
   * with the uploaded image's URL or no image.
   */
  method CreatePost(db: Store, me: int, content: string, upload: Option<string>, today: int)
    returns (r: Response<Option<string>>)
    requires db.Valid()
    modifies db`tweets, db`nextTweetId
    ensures db.Valid()
    ensures r == Created(upload)
    ensures old(db.nextTweetId) !in old(db.tweets)
    ensures db.tweets == old(db.tweets)[old(db.nextTweetId) := Tweet(me, content, today, upload)]
    ensures db.nextTweetId == old(db.nextTweetId) + 1
  {
    db.tweets := db.tweets[db.nextTweetId := Tweet(me, content, today, upload)];
    db.nextTweetId := db.nextTweetId + 1;
    r := Created(upload);
  }

  /** The image a post keeps after an edit: a new upload wins, then `removeImage == "true"`, else the old one. */
  function EditedImage(current: Option<string>, upload: Option<string>, removeImage: Option<string>)
    : (image: Option<string>)
    ensures upload.Some? ==> image == upload
    ensures upload.None? && removeImage == Some("true") ==> image.None?
    ensures upload.None? && removeImage != Some("true") ==> image == current
  {
    if upload.Some? then upload
    else if removeImage == Some("true") then None
    else current
  }

  /**
   * `PUT /edit/post/:id`: 404 when the post is absent, 403 when the
   * requester is not its author, otherwise only its content and image change.
   */
  method EditPost(db: Store, me: int, postId: int, content: string, upload: Option<string>,
                  removeImage: Option<string>) returns (r: Response<string>)
    modifies db`tweets
    ensures postId !in old(db.tweets) ==> r == NotFound("Post not found")
    ensures postId in old(db.tweets) && old(db.tweets)[postId].author != me ==> r == Forbidden("Unauthorized")
    ensures !r.Ok? ==> db.tweets == old(db.tweets)
    ensures r.Ok? <==> postId in old(db.tweets) && old(db.tweets)[postId].author == me
    ensures r.Ok? ==> r.body == "Post updated"
    ensures r.Ok? ==> (var t := old(db.tweets)[postId];
      db.tweets == old(db.tweets)[postId := t.(content := content, image := EditedImage(t.image, upload, removeImage))])
  {
    if postId !in db.tweets {
      return NotFound("Post not found");
    }
    var post := db.tweets[postId];
    if post.author != me {
      return Forbidden("Unauthorized");
    }
    var imageUrl := EditedImage(post.image, upload, removeImage);
    db.tweets := db.tweets[postId := post.(content := content, image := imageUrl)];
    r := Ok("Post updated");
  }

  /**
   * `DELETE /delete/post/:id`: one query looks for the post by id and
   * author, so an absent post and someone else's post both answer 403.
   * Only the `tweets` row is removed.
   */
  method DeletePost(db: Store, me: int, postId: int) returns (r: Response<string>)
    modifies db`tweets
    ensures r == Ok("Post deleted") || r == Forbidden("You can't delete this post")
    ensures r.Ok? <==> postId in old(db.tweets) && old(db.tweets)[postId].author == me
    ensures r.Ok? ==> db.tweets == old(db.tweets) - {postId}
    ensures !r.Ok? ==> db.tweets == old(db.tweets)
  {
    if !(postId in db.tweets && db.tweets[postId].author == me) {
      return Forbidden("You can't delete this post");
    }
    db.tweets := db.tweets - {postId};
    r := Ok("Post deleted");
  }

  /** A row of `GET /posts/:id/replies`: the reply joined with its author. */
  datatype ReplyRow = ReplyRow(
    id: int, content: string, image: Option<string>, date: int, author: int,
    username: string, realName: Option<string>, avatarUrl: Option<string>)

  /** The replies to `postId` whose author row exists. */
  function ThreadReplies(db: Tables, postId: int): set<int>
  {
    set id | id in db.replies && db.replies[id].tweet == postId && db.replies[id].author in db.users
  }

  /** What a reply row says about the reply it names. */
  ghost predicate ShowsReply(db: Tables, row: ReplyRow) {
    && row.id in db.replies && db.replies[row.id].author in db.users
    && var rp := db.replies[row.id];
    && var u := db.users[rp.author];
    && row.content == rp.content && row.image == rp.image && row.date == rp.date
    && row.author == rp.author && row.username == u.username
    && row.realName == u.realName && row.avatarUrl == u.avatarUrl
  }

  function ReplyRowOf(db: Tables, id: int): ReplyRow
    requires id in db.replies && db.replies[id].author in db.users
  {
    var rp := db.replies[id];
    var u := db.users[rp.author];
    ReplyRow(id, rp.content, rp.image, rp.date, rp.author, u.username, u.realName, u.avatarUrl)
  }

  /** `GET /posts/:id/replies`: the post's replies, oldest id first, unpaged. */
  function ListReplies(db: Tables, postId: int): (rows: seq<ReplyRow>)
    ensures forall i :: 0 <= i < |rows| ==> ShowsReply(db, rows[i]) && db.replies[rows[i].id].tweet == postId
    ensures forall i, j :: 0 <= i < j < |rows| ==> rows[i].id < rows[j].id
    ensures db.Valid() ==> forall id :: id in ThreadReplies(db, postId) ==>
      exists i :: 0 <= i < |rows| && rows[i].id == id
  {
    var ids := Asc(ThreadReplies(db, postId), db.nextReplyId);
    var rows := seq(|ids|, i requires 0 <= i < |ids| => ReplyRowOf(db, ids[i]));
    assert forall i :: 0 <= i < |rows| ==> rows[i].id == ids[i];
    rows
  }

  /**
   * `POST /replies`: inserts one reply by the requester to `replyTo`,
   * dated `today`; the parent post is not checked to exist.
   */
  method CreateReply(db: Store, me: int, replyTo: int, content: string, upload: Option<string>, today: int)
    returns (r: Response<Option<string>>)
    requires db.Valid()
    modifies db`replies, db`nextReplyId
    ensures db.Valid()
    ensures r == Created(upload)
    ensures old(db.nextReplyId) !in old(db.replies)
    ensures db.replies == old(db.replies)[old(db.nextReplyId) := Reply(replyTo, me, content, today, upload)]
    ensures db.nextReplyId == old(db.nextReplyId) + 1
  {
    db.replies := db.replies[db.nextReplyId := Reply(replyTo, me, content, today, upload)];
    db.nextReplyId := db.nextReplyId + 1;
    r := Created(upload);
  }

  /** `DELETE /reply/:id`: 404 when absent, 403 when not the requester's, otherwise that row goes. */
  method DeleteReply(db: Store, me: int, replyId: int) returns (r: Response<string>)
    modifies db`replies
    ensures replyId !in old(db.replies) ==> r == NotFound("Reply not found")
    ensures replyId in old(db.replies) && old(db.replies)[replyId].author != me ==>
      r == Forbidden("Forbidden: Not your reply")
    ensures r.Ok? <==> replyId in old(db.replies) && old(db.replies)[replyId].author == me
    ensures r.Ok? ==> r.body == "Reply deleted successfully" && db.replies == old(db.replies) - {replyId}
    ensures !r.Ok? ==> db.replies == old(db.replies)
  {
    if replyId !in db.replies {
      return NotFound("Reply not found");
    }
    if db.replies[replyId].author != me {
      return Forbidden("Forbidden: Not your reply");
    }
    db.replies := db.replies - {replyId};
    r := Ok("Reply deleted successfully");
  }
}
