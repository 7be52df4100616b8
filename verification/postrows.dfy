/**
 * The annotated post row that the feed, bookmarks and per-user post lists
 * return: the post joined with its author, plus live counts
 * (`COUNT(DISTINCT likes.user_id)`, `COUNT(DISTINCT replies.id)`) and the
 * two per-user flags (`EXISTS (SELECT 1 FROM likes ...)`, same for bookmarks).
 */
module PostRows {
  import opened Schema
  import opened Listing

  datatype PostRow = PostRow(
    id: int,
    content: string,
    date: int,
    image: Option<string>,
    author: int,
    username: string,
    realName: Option<string>,
    avatarUrl: Option<string>,
    totalLikes: nat,
    totalReplies: nat,
    likedByCurrentUser: bool,
    bookmarkedByCurrentUser: bool)

  /** `tweets JOIN users ON tweets.user_id = users.id` keeps the post `id`. */
  predicate Joined(db: Tables, id: int) {
    id in db.tweets && db.tweets[id].author in db.users
  }

  /** The users who like post `t`. */
  function Likers(likes: set<Pair>, t: int): set<int> {
    set p | p in likes && p.1 == t :: p.0
  }

  /** `COUNT(DISTINCT likes.user_id)` for post `t`, 0 when nobody likes it. */
  function LikeCount(likes: set<Pair>, t: int): nat {
    |Likers(likes, t)|
  }

  /** `COUNT(DISTINCT replies.id)` for post `t`, 0 when it has no reply. */
  function ReplyCount(replies: map<int, Reply>, t: int): nat {
    |set r | r in replies && replies[r].tweet == t|
  }

  /**
   * What a row says about the post it names: the post's own columns, its
   * author's display columns, the live counts, and whether `flagUser`
   * likes it.
   */
  ghost predicate Describes(db: Tables, row: PostRow, flagUser: int) {
    && Joined(db, row.id)
    && var t := db.tweets[row.id];
    && var u := db.users[t.author];
    && row.content == t.content && row.date == t.date && row.image == t.image
    && row.author == t.author
    && row.username == u.username && row.realName == u.realName && row.avatarUrl == u.avatarUrl
    && row.totalLikes == LikeCount(db.likes, row.id)
    && row.totalReplies == ReplyCount(db.replies, row.id)
    && row.likedByCurrentUser == ((flagUser, row.id) in db.likes)
  }

  /** The row for post `id`, with the liked flag computed for `flagUser` and the given bookmarked flag. */
  function Annotate(db: Tables, id: int, flagUser: int, bookmarked: bool): PostRow
    requires Joined(db, id)
  {
    var t := db.tweets[id];
    var u := db.users[t.author];
    PostRow(id, t.content, t.date, t.image, t.author, u.username, u.realName, u.avatarUrl,
            LikeCount(db.likes, id), ReplyCount(db.replies, id),
            (flagUser, id) in db.likes, bookmarked)
  }

  /** How a list route fills `bookmarked_by_current_user`. */
  datatype BookmarkFlag = BookmarkedBy(user: int) | AlwaysTrue

  function BookmarkedFlag(db: Tables, flag: BookmarkFlag, id: int): bool {
    match flag
    case BookmarkedBy(u) => (u, id) in db.bookmarks
    case AlwaysTrue => true
  }

  /** The rows for `ids`, in the same order. */
  function AnnotateAll(db: Tables, ids: seq<int>, flagUser: int, flag: BookmarkFlag): (rows: seq<PostRow>)
    requires forall i :: 0 <= i < |ids| ==> Joined(db, ids[i])
    ensures |rows| == |ids|
    ensures forall i :: 0 <= i < |rows| ==>
      rows[i].id == ids[i] && Describes(db, rows[i], flagUser) &&
      rows[i].bookmarkedByCurrentUser == BookmarkedFlag(db, flag, ids[i])
  {
    if ids == [] then []
    else [Annotate(db, ids[0], flagUser, BookmarkedFlag(db, flag, ids[0]))]
         + AnnotateAll(db, ids[1..], flagUser, flag)
  }

  /** Rows whose ids strictly decrease: `ORDER BY tweets.id DESC` over distinct posts. */
  predicate IdsDecrease(rows: seq<PostRow>) {
    forall i, j :: 0 <= i < j < |rows| ==> rows[i].id > rows[j].id
  }

  /** Rows whose dates never increase: `ORDER BY t.date DESC`. */
  predicate DatesDescend(rows: seq<PostRow>) {
    forall i :: 0 < i < |rows| ==> rows[i - 1].date >= rows[i].date
  }

  /** No post appears twice. */
  predicate IdsDistinct(rows: seq<PostRow>) {
    forall i, j :: 0 <= i < j < |rows| ==> rows[i].id != rows[j].id
  }

  /** A page of rows keeps the date order and the uniqueness of the rows it is cut from. */
  lemma PageOfRows(rows: seq<PostRow>, page: int)
    requires page >= 1
    ensures |Page(rows, page).body| <= PageSize
    ensures DatesDescend(rows) ==> DatesDescend(Page(rows, page).body)
    ensures IdsDistinct(rows) ==> IdsDistinct(Page(rows, page).body)
    ensures forall row :: row in Page(rows, page).body ==> row in rows
  {
    var body := Page(rows, page).body;
    assert forall i :: 0 <= i < |body| ==> body[i] == rows[Offset(page) + i];
  }

  /** Puts `row` before the first row that is not newer than it, so equal dates keep their order. */
  function InsertByDate(row: PostRow, rows: seq<PostRow>): (r: seq<PostRow>)
    requires DatesDescend(rows)
    ensures DatesDescend(r)
    ensures |r| == |rows| + 1 && (r[0] == row || (rows != [] && r[0] == rows[0]))
  {
    if rows == [] || row.date >= rows[0].date then [row] + rows
    else
      var rest := InsertByDate(row, rows[1..]);
      assert rows == [rows[0]] + rows[1..];
      assert rest[0].date <= rows[0].date;
      [rows[0]] + rest
  }

  /** Inserting adds exactly the one row. */
  lemma {:induction false} InsertByDateAddsRow(row: PostRow, rows: seq<PostRow>)
    requires DatesDescend(rows)
    ensures multiset(InsertByDate(row, rows)) == multiset(rows) + multiset{row}
  {
    if rows != [] && row.date < rows[0].date {
      InsertByDateAddsRow(row, rows[1..]);
      assert rows == [rows[0]] + rows[1..];
    }
  }

  /** A stable sort by date, newest first. */
  function SortByDate(rows: seq<PostRow>): (r: seq<PostRow>)
    ensures DatesDescend(r)
    ensures multiset(r) == multiset(rows)
  {
    if rows == [] then []
    else
      assert rows == [rows[0]] + rows[1..];
      InsertByDateAddsRow(rows[0], SortByDate(rows[1..]));
      InsertByDate(rows[0], SortByDate(rows[1..]))
  }

  /** Sorting neither drops nor invents a row. */
  lemma SortKeepsRows(rows: seq<PostRow>, x: PostRow)
    ensures x in SortByDate(rows) <==> x in rows
  {
    var r := SortByDate(rows);
    assert x in r <==> x in multiset(r);
    assert x in rows <==> x in multiset(rows);
  }

  /** Reordering rows with distinct ids keeps their ids distinct. */
  lemma PermutationKeepsIdsDistinct(a: seq<PostRow>, b: seq<PostRow>)
    requires multiset(a) == multiset(b) && IdsDistinct(b)
    ensures IdsDistinct(a)
  {
    assert Distinct(b);
    PermutationKeepsDistinct(a, b);
    forall i, j | 0 <= i < j < |a|
      ensures a[i].id != a[j].id
    {
      assert a[i] in multiset(b) && a[j] in multiset(b);
      var x :| 0 <= x < |b| && b[x] == a[i];
      var y :| 0 <= y < |b| && b[y] == a[j];
      assert x != y;
    }
  }

  /** A like by a user who did not like post `t` yet raises its count by exactly one. */
  lemma LikeRaisesCount(likes: set<Pair>, u: int, t: int)
    requires (u, t) !in likes
    ensures LikeCount(Insert(likes, (u, t)), t) == LikeCount(likes, t) + 1
  {
    assert Likers(Insert(likes, (u, t)), t) == Likers(likes, t) + {u};
    assert u !in Likers(likes, t);
  }

  /** Withdrawing an existing like lowers the post's count by exactly one. */
  lemma UnlikeLowersCount(likes: set<Pair>, u: int, t: int)
    requires (u, t) in likes
    ensures LikeCount(Delete(likes, (u, t)), t) == LikeCount(likes, t) - 1
  {
    assert Likers(Delete(likes, (u, t)), t) == Likers(likes, t) - {u};
    assert u in Likers(likes, t);
  }

  /** A like or an unlike of post `t` leaves every other post's count as it was. */
  lemma ToggleKeepsOtherCounts(likes: set<Pair>, u: int, t: int, other: int)
    requires other != t
    ensures LikeCount(Insert(likes, (u, t)), other) == LikeCount(likes, other)
    ensures LikeCount(Delete(likes, (u, t)), other) == LikeCount(likes, other)
  {
    assert Likers(Insert(likes, (u, t)), other) == Likers(likes, other);
    assert Likers(Delete(likes, (u, t)), other) == Likers(likes, other);
  }

  /**
   * The shape every paged post list shares: the posts in `keys`, newest id
   * first, annotated, then `LIMIT 10 OFFSET (page - 1) * 10`.
   */
  function PostList(db: Tables, keys: set<int>, flagUser: int, flag: BookmarkFlag, page: int)
    : (r: Response<seq<PostRow>>)
    requires forall id :: id in keys ==> Joined(db, id)
    ensures r.Ok? <==> page >= 1
    ensures r.Ok? ==> |r.body| <= PageSize && IdsDecrease(r.body)
    ensures r.Ok? ==> forall row :: row in r.body ==>
      row.id in keys && Describes(db, row, flagUser) &&
      row.bookmarkedByCurrentUser == BookmarkedFlag(db, flag, row.id)
    ensures r.Ok? ==> forall i :: 0 <= i < |r.body| ==>
      Offset(page) + i < |Desc(keys, db.nextTweetId)| && r.body[i].id == Desc(keys, db.nextTweetId)[Offset(page) + i]
    ensures r.Ok? && |r.body| < PageSize ==> Offset(page) + |r.body| >= |Desc(keys, db.nextTweetId)|
  {
    var ids := Desc(keys, db.nextTweetId);
    var rows := AnnotateAll(db, ids, flagUser, flag);
    assert IdsDecrease(rows);
    var r := Page(rows, page);
    assert r.Ok? ==> forall i :: 0 <= i < |r.body| ==> r.body[i] == rows[Offset(page) + i];
    r
  }

  /** Every post in scope is on some page of the list: nothing in scope is unreachable. */
  lemma PostListComplete(db: Tables, keys: set<int>, flagUser: int, flag: BookmarkFlag, id: int)
    returns (page: int, k: int)
    requires db.Valid()
    requires forall x :: x in keys ==> Joined(db, x)
    requires id in keys
    ensures page >= 1 && PostList(db, keys, flagUser, flag, page).Ok?
    ensures 0 <= k < |PostList(db, keys, flagUser, flag, page).body|
    ensures PostList(db, keys, flagUser, flag, page).body[k].id == id
  {
    var ids := Desc(keys, db.nextTweetId);
    var rows := AnnotateAll(db, ids, flagUser, flag);
    assert id in ids;
    var i :| 0 <= i < |ids| && ids[i] == id;
    RowOnPage(rows, i);
    page, k := i / PageSize + 1, i % PageSize;
  }

  /** A page of a post list shorter than ten rows is the last one: every later page is empty. */
  lemma PostListShortPageIsLast(db: Tables, keys: set<int>, flagUser: int, flag: BookmarkFlag, page: int, later: int)
    requires forall id :: id in keys ==> Joined(db, id)
    requires PostList(db, keys, flagUser, flag, page).Ok? && |PostList(db, keys, flagUser, flag, page).body| < PageSize
    requires later > page
    ensures PostList(db, keys, flagUser, flag, later) == Ok([])
  {
    var rows := AnnotateAll(db, Desc(keys, db.nextTweetId), flagUser, flag);
    ShortPageIsLast(rows, page, later);
  }

  /** Rows laid over strictly decreasing ids at two different offsets share no id. */
  lemma PagesOverIdsDisjoint(ids: seq<int>, pb: seq<PostRow>, qb: seq<PostRow>, p: int, q: int)
    requires forall i, j :: 0 <= i < j < |ids| ==> ids[i] > ids[j]
    requires p != q && |pb| <= PageSize && |qb| <= PageSize
    requires forall a :: 0 <= a < |pb| ==> Offset(p) + a < |ids| && 0 <= Offset(p) + a && pb[a].id == ids[Offset(p) + a]
    requires forall b :: 0 <= b < |qb| ==> Offset(q) + b < |ids| && 0 <= Offset(q) + b && qb[b].id == ids[Offset(q) + b]
    ensures forall a, b :: 0 <= a < |pb| && 0 <= b < |qb| ==> pb[a].id != qb[b].id
  {
    forall a, b | 0 <= a < |pb| && 0 <= b < |qb|
      ensures pb[a].id != qb[b].id
    {
      var i, j := Offset(p) + a, Offset(q) + b;
      assert pb[a].id == ids[i] && qb[b].id == ids[j];
      assert i != j by {
        if p < q { assert Offset(q) >= Offset(p) + PageSize; } else { assert Offset(p) >= Offset(q) + PageSize; }
      }
      if i < j { assert ids[i] > ids[j]; } else { assert ids[j] > ids[i]; }
    }
  }

  /** Two different pages of one post list over an unchanged store share no post. */
  lemma PostListPagesDisjoint(db: Tables, keys: set<int>, flagUser: int, flag: BookmarkFlag, p: int, q: int)
    requires forall id :: id in keys ==> Joined(db, id)
    requires 1 <= p && 1 <= q && p != q
    ensures var pb, qb := PostList(db, keys, flagUser, flag, p).body, PostList(db, keys, flagUser, flag, q).body;
      forall a, b :: 0 <= a < |pb| && 0 <= b < |qb| ==> pb[a].id != qb[b].id
  {
    var pb, qb := PostList(db, keys, flagUser, flag, p).body, PostList(db, keys, flagUser, flag, q).body;
    PagesOverIdsDisjoint(Desc(keys, db.nextTweetId), pb, qb, p, q);
  }
}
